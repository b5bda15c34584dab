/** The decisions nandwriter.py makes about the NAND flash of an A20 board:
    the fixed partition geometry, reading the sector count out of `fdisk -l`,
    building the `nand-part` command line, judging each tool by a fixed
    phrase in its output, and reading the operator's y/n answer. Every tool
    is represented by the text the program received from it, given as a
    parameter: for a tool run by `commands.getoutput`, its standard output
    and standard error merged, with one trailing newline removed. */
module NandWriter {
  import opened PyStr
  import Shlex

  // ---------------------------------------------------------------------
  // Partition geometry, in 512-byte sectors

  const BootPartitionOffset: int := 2048
  const BootPartitionSize: int := 32768 * 2
  const RootPartitionOffset: int := BootPartitionOffset + BootPartitionSize

  /** The root partition starts right after the boot partition. */
  lemma RootPartitionOffsetValue()
    ensures RootPartitionOffset == BootPartitionOffset + BootPartitionSize == 67584
  {
  }

  /** The root partition takes every sector after its offset; nothing stops
      the size going negative on a device smaller than the offset. */
  function RootPartitionSize(totalSectors: int): (r: int)
    ensures BootPartitionOffset + BootPartitionSize + r == totalSectors
    ensures r < 0 <==> totalSectors < 67584
    ensures r == 0 <==> totalSectors == 67584
  {
    totalSectors - RootPartitionOffset
  }

  // ---------------------------------------------------------------------
  // Sector count from `fdisk -l /dev/nand`

  const SectorsPrefix := ", total "
  const SectorsSuffix := " sectors"

  /** The integer before the first " sectors" in `t`. When there is no
      " sectors", `find` gives -1 and the slice drops the last character. */
  function ReadUpToSuffix(t: string): Result<int>
  {
    ParseInt(SliceTo(t, Find(t, SectorsSuffix)))
  }

  /** The total sector count in the text `fdisk -l` gave: the text after the first
      ", total ", up to the first " sectors" after it. When ", total " is
      missing, `find` gives -1 and reading starts at index 7. An unreadable
      number is Python's ValueError. */
  function GetNandSectors(fdiskOutput: string): Result<int>
  {
    var start := Find(fdiskOutput, SectorsPrefix) + |SectorsPrefix|;
    ReadUpToSuffix(SliceFrom(fdiskOutput, start))
  }

  /** The root partition size from the same `fdisk -l` output. */
  function CalcRootPartitionSize(fdiskOutput: string): (r: Result<int>)
    ensures r.Ok? <==> GetNandSectors(fdiskOutput).Ok?
    ensures r.Ok? ==> BootPartitionOffset + BootPartitionSize + r.value == GetNandSectors(fdiskOutput).value
  {
    match GetNandSectors(fdiskOutput)
    case Ok(total) => Ok(RootPartitionSize(total))
    case Err(e) => Err(e)
  }

  /** ", total " has no earlier occurrence that could overlap its first one:
      a text with no ", total " followed by ", total " finds it at the join. */
  lemma {:induction false} FindPrefixAfter(pre: string, rest: string)
    requires !Contains(pre, SectorsPrefix)
    ensures Find(pre + SectorsPrefix + rest, SectorsPrefix) == |pre|
  {
    var s := pre + SectorsPrefix + rest;
    var p := SectorsPrefix;
    assert s[|pre|..|pre| + |p|] == p;
    assert OccursAt(s, p, |pre|);
    forall j | 0 <= j < |pre|
      ensures !OccursAt(s, p, j)
    {
      if j + |p| <= |pre| {
        assert s[j..j + |p|] == pre[j..j + |p|];
        assert !OccursAt(pre, p, j);
      } else {
        var k := |pre| - j;
        assert 0 < k < |p| && p[k] != ',';
        assert s[|pre|] == ',';
        assert j + |p| <= |s| ==> s[j..j + |p|][k] == s[|pre|];
      }
    }
    FindSpec(s, p);
  }

  /** In digits followed by " sectors", the first " sectors" is right after
      the digits. */
  lemma {:induction false} FindSuffixAfterDigits(d: string, rest: string)
    requires IsDigits(d)
    ensures Find(d + SectorsSuffix + rest, SectorsSuffix) == |d|
  {
    var t := d + SectorsSuffix + rest;
    assert t[|d|..|d| + |SectorsSuffix|] == SectorsSuffix;
    assert OccursAt(t, SectorsSuffix, |d|);
    forall j | 0 <= j < |d|
      ensures !OccursAt(t, SectorsSuffix, j)
    {
      assert t[j] == d[j] && IsDigit(d[j]);
      assert j + |SectorsSuffix| <= |t| ==> t[j..j + |SectorsSuffix|][0] == t[j];
    }
    FindSpec(t, SectorsSuffix);
  }

  /** Well-formed `fdisk -l` output: whatever comes before the first
      ", total " (even other " sectors", such as "63 sectors/track") and
      whatever follows the number, the digits between the markers are read. */
  lemma {:induction false} GetNandSectorsReadsTotal(pre: string, d: string, post: string)
    requires !Contains(pre, SectorsPrefix)
    requires IsDigits(d)
    ensures GetNandSectors(pre + SectorsPrefix + d + SectorsSuffix + post) == Ok(DigitsValue(d))
  {
    var s := pre + SectorsPrefix + d + SectorsSuffix + post;
    var t := d + SectorsSuffix + post;
    assert s == pre + SectorsPrefix + t;
    FindPrefixAfter(pre, t);
    assert SliceFrom(s, |pre| + |SectorsPrefix|) == t;
    FindSuffixAfterDigits(d, post);
    assert SliceTo(t, |d|) == d;
    ParseIntDigits(d);
  }

  /** The count `fdisk` prints is the count read back. */
  lemma GetNandSectorsRoundTrip(pre: string, n: nat, post: string)
    requires !Contains(pre, SectorsPrefix)
    ensures GetNandSectors(pre + SectorsPrefix + NatStr(n) + SectorsSuffix + post) == Ok(n)
  {
    NatStrDigits(n);
    GetNandSectorsReadsTotal(pre, NatStr(n), post);
  }

  /** On a device with fewer sectors than the root partition's offset, the
      root size is read and comes out negative: nothing guards against it. */
  lemma {:induction false} SmallDeviceNegativeRoot(pre: string, n: nat, post: string)
    requires !Contains(pre, SectorsPrefix)
    requires n < RootPartitionOffset
    ensures CalcRootPartitionSize(pre + SectorsPrefix + NatStr(n) + SectorsSuffix + post) == Ok(n - 67584)
    ensures n - 67584 < 0
  {
    GetNandSectorsRoundTrip(pre, n, post);
  }

  /** Without ", total ", `find` returns -1, so reading starts at index 7 of
      the raw text (or at its end when it is shorter). */
  lemma PrefixMissing(s: string)
    requires !Contains(s, SectorsPrefix)
    ensures GetNandSectors(s) == ReadUpToSuffix(SliceFrom(s, 7))
    ensures |s| <= 7 ==> GetNandSectors(s).Err?
  {
    FindSpec(s, SectorsPrefix);
    if |s| <= 7 {
      assert SliceFrom(s, 7) == [];
      assert SliceTo([], -1) == [];
      ParseIntEmpty();
    }
  }

  /** Without " sectors" after the marker, the slice `[:-1]` drops the last
      character of the rest of the text. */
  lemma SuffixMissing(t: string)
    requires t != [] && !Contains(t, SectorsSuffix)
    ensures ReadUpToSuffix(t) == ParseInt(t[..|t| - 1])
  {
    FindSpec(t, SectorsSuffix);
    SliceToSpec(t, -1);
  }

  /** Nothing between the markers is not a number. */
  lemma {:induction false} EmptyCount(pre: string, post: string)
    requires !Contains(pre, SectorsPrefix)
    ensures GetNandSectors(pre + SectorsPrefix + SectorsSuffix + post).Err?
  {
    var t := SectorsSuffix + post;
    assert pre + SectorsPrefix + SectorsSuffix + post == pre + SectorsPrefix + t;
    FindPrefixAfter(pre, t);
    assert SliceFrom(pre + SectorsPrefix + t, |pre| + |SectorsPrefix|) == t;
    assert OccursAt(t, SectorsSuffix, 0);
    assert SliceTo(t, 0) == [];
    ParseIntEmpty();
  }

  // ---------------------------------------------------------------------
  // What `commands.getoutput` hands back

  /** `commands.getoutput` returns what the tool wrote to standard output
      and standard error, merged, minus one trailing newline. */
  function GetOutput(printed: string): (r: string)
    ensures printed == r || printed == r + "\n"
    ensures printed == r + "\n" <==> EndsInNewline(printed)
  {
    if EndsInNewline(printed) then printed[..|printed| - 1] else printed
  }

  /** With no " sectors" after ", total ", the parser reads up to the last
      character but one. */
  lemma {:induction false} CountWithoutSuffix(pre: string, t: string)
    requires !Contains(pre, SectorsPrefix)
    requires t != [] && forall k :: 0 <= k < |t| ==> t[k] != ' '
    ensures GetNandSectors(pre + SectorsPrefix + t) == ParseInt(t[..|t| - 1])
  {
    var s := pre + SectorsPrefix + t;
    FindPrefixAfter(pre, t);
    assert SliceFrom(s, |pre| + |SectorsPrefix|) == t;
    forall i | 0 <= i <= |t| - |SectorsSuffix|
      ensures !OccursAt(t, SectorsSuffix, i)
    {
      CharOfOccurrence(t, SectorsSuffix, i, i);
    }
    SuffixMissing(t);
  }

  /** Output that ends with the count and a newline, no " sectors": read
      as printed, `[:-1]` drops the newline and the count is read whole;
      read as `getoutput` returns it, the newline is gone already and
      `[:-1]` drops the count's last digit. */
  lemma NewlineEndedCount(pre: string, d: string)
    requires !Contains(pre, SectorsPrefix)
    requires IsDigits(d)
    ensures GetNandSectors(pre + SectorsPrefix + d + "\n") == Ok(DigitsValue(d))
    ensures |d| == 1 ==> GetNandSectors(GetOutput(pre + SectorsPrefix + d + "\n")).Err?
    ensures |d| > 1 ==> GetNandSectors(GetOutput(pre + SectorsPrefix + d + "\n")) == Ok(DigitsValue(d) / 10)
  {
    PrintedCountReadWhole(pre, d);
    var printed := pre + SectorsPrefix + d + "\n";
    assert GetOutput(printed) == pre + SectorsPrefix + d;
    ReceivedCountLosesDigit(pre, d);
  }

  /** The count followed by a newline is read whole. */
  lemma {:induction false} PrintedCountReadWhole(pre: string, d: string)
    requires !Contains(pre, SectorsPrefix)
    requires IsDigits(d)
    ensures GetNandSectors(pre + SectorsPrefix + d + "\n") == Ok(DigitsValue(d))
  {
    var t := d + "\n";
    assert pre + SectorsPrefix + d + "\n" == pre + SectorsPrefix + t;
    assert forall k :: 0 <= k < |t| ==> t[k] != ' ' by {
      assert forall k :: 0 <= k < |d| ==> t[k] == d[k] && IsDigit(d[k]);
    }
    CountWithoutSuffix(pre, t);
    assert t[..|t| - 1] == d;
    ParseIntDigits(d);
  }

  /** The count as the last thing in the text loses its last digit. */
  lemma {:induction false} ReceivedCountLosesDigit(pre: string, d: string)
    requires !Contains(pre, SectorsPrefix)
    requires IsDigits(d)
    ensures |d| == 1 ==> GetNandSectors(pre + SectorsPrefix + d).Err?
    ensures |d| > 1 ==> GetNandSectors(pre + SectorsPrefix + d) == Ok(DigitsValue(d) / 10)
  {
    assert forall k :: 0 <= k < |d| ==> d[k] != ' ' by {
      assert forall k :: 0 <= k < |d| ==> IsDigit(d[k]);
    }
    CountWithoutSuffix(pre, d);
    var h := d[..|d| - 1];
    if |d| == 1 {
      assert h == "";
      ParseIntEmpty();
    } else {
      DropLastDigit(d);
      ParseIntDigits(h);
    }
  }

  // ---------------------------------------------------------------------
  // The `nand-part` command line

  /** The command string built at lines 94-95. */
  function PartitionCommand(bootOffset: int, bootSize: int, rootSize: int): string
  {
    "nand-part -f a20 /dev/nand " + IntStr(bootOffset) + " 'boot " + IntStr(bootSize) + "' 'root " +
    IntStr(rootSize) + "'"
  }

  /** The argument vector the process is started with. */
  function PartitionArgv(bootOffset: int, bootSize: int, rootSize: int): seq<string>
  {
    ["nand-part", "-f", "a20", "/dev/nand", IntStr(bootOffset), "boot " + IntStr(bootSize), "root " + IntStr(rootSize)]
  }

  lemma IntStrPlain(n: int)
    ensures Shlex.AllPlain(IntStr(n))
    ensures Shlex.NoSingleQuote(IntStr(n))
  {
    IntStrDigits(n);
  }

  /** The command string, word by word. */
  lemma {:induction false} PartitionCommandWords(o: string, b: string, r: string)
    ensures "nand-part -f a20 /dev/nand " + o + " 'boot " + b + "' 'root " + r + "'"
         == "nand-part" + " " + ("-f" + " " + ("a20" + " " + ("/dev/nand" + " " +
            (o + " " + ("'" + ("boot " + b) + "'" + " " + ("'" + ("root " + r) + "'"))))))
  {
    var r6 := "'" + ("root " + r) + "'";
    var r5 := "'" + ("boot " + b) + "'" + " " + r6;
    var r4 := o + " " + r5;
    assert "' 'root " + r + "'" == "'" + " " + r6;
    assert " 'boot " + b + ("'" + " " + r6) == " " + r5;
    assert "nand-part -f a20 /dev/nand " + o + (" " + r5) == "nand-part -f a20 /dev/nand " + r4;
    assert "nand-part -f a20 /dev/nand " + r4
        == "nand-part" + " " + ("-f" + " " + ("a20" + " " + ("/dev/nand" + " " + r4)));
    assert "nand-part -f a20 /dev/nand " + o + " 'boot " + b + "' 'root " + r + "'"
        == "nand-part -f a20 /dev/nand " + o + (" 'boot " + b + ("' 'root " + r + "'"));
  }

  /** The four fixed words come out as four arguments. */
  lemma {:induction false} SplitFixedWords(rest: string)
    ensures Shlex.Split("nand-part" + " " + ("-f" + " " + ("a20" + " " + ("/dev/nand" + " " + rest))))
         == Shlex.Lex(rest, Shlex.Between, "", false, ["nand-part", "-f", "a20", "/dev/nand"])
  {
    var r3 := "/dev/nand" + " " + rest;
    var r2 := "a20" + " " + r3;
    var r1 := "-f" + " " + r2;
    assert Shlex.AllPlain("nand-part") && Shlex.AllPlain("-f") && Shlex.AllPlain("a20") && Shlex.AllPlain("/dev/nand");
    Shlex.SplitPlainWord("nand-part", r1, []);
    assert [] + ["nand-part"] == ["nand-part"];
    assert Shlex.Split("nand-part" + " " + r1) == Shlex.Lex(r1, Shlex.Between, "", false, ["nand-part"]);
    Shlex.SplitPlainWord("-f", r2, ["nand-part"]);
    assert ["nand-part"] + ["-f"] == ["nand-part", "-f"];
    assert Shlex.Lex(r1, Shlex.Between, "", false, ["nand-part"]) == Shlex.Lex(r2, Shlex.Between, "", false, ["nand-part", "-f"]);
    Shlex.SplitPlainWord("a20", r3, ["nand-part", "-f"]);
    assert ["nand-part", "-f"] + ["a20"] == ["nand-part", "-f", "a20"];
    assert Shlex.Lex(r2, Shlex.Between, "", false, ["nand-part", "-f"]) == Shlex.Lex(r3, Shlex.Between, "", false, ["nand-part", "-f", "a20"]);
    Shlex.SplitPlainWord("/dev/nand", rest, ["nand-part", "-f", "a20"]);
    assert ["nand-part", "-f", "a20"] + ["/dev/nand"] == ["nand-part", "-f", "a20", "/dev/nand"];
    assert Shlex.Lex(r3, Shlex.Between, "", false, ["nand-part", "-f", "a20"]) == Shlex.Lex(rest, Shlex.Between, "", false, ["nand-part", "-f", "a20", "/dev/nand"]);
  }

  /** The offset and the two quoted partitions come out as three arguments. */
  lemma {:induction false} SplitSizeWords(o: string, b: string, r: string, acc: seq<string>)
    requires o != [] && Shlex.AllPlain(o)
    requires Shlex.NoSingleQuote(b) && Shlex.NoSingleQuote(r)
    ensures Shlex.Lex(o + " " + ("'" + b + "'" + " " + ("'" + r + "'")), Shlex.Between, "", false, acc)
         == Shlex.Some(acc + [o, b, r])
  {
    var r6 := "'" + r + "'";
    var r5 := "'" + b + "'" + " " + r6;
    Shlex.SplitPlainWord(o, r5, acc);
    Shlex.SplitQuotedWord(b, r6, acc + [o]);
    Shlex.SplitQuotedLast(r, acc + [o] + [b]);
    assert acc + [o] + [b] + [r] == acc + [o, b, r];
  }

  /** `shlex.split` turns the command string into exactly seven arguments:
      the two partitions are one argument each, label and size together,
      whatever the sign of the sizes. */
  lemma {:induction false} SplitPartitionCommand(bootOffset: int, bootSize: int, rootSize: int)
    ensures Shlex.Split(PartitionCommand(bootOffset, bootSize, rootSize)) == Shlex.Some(PartitionArgv(bootOffset, bootSize, rootSize))
  {
    var o, b, r := IntStr(bootOffset), "boot " + IntStr(bootSize), "root " + IntStr(rootSize);
    IntStrPlain(bootOffset);
    IntStrPlain(bootSize);
    IntStrPlain(rootSize);
    assert Shlex.NoSingleQuote(b) by { assert forall i :: 5 <= i < |b| ==> b[i] == IntStr(bootSize)[i - 5]; }
    assert Shlex.NoSingleQuote(r) by { assert forall i :: 5 <= i < |r| ==> r[i] == IntStr(rootSize)[i - 5]; }
    var sizes := o + " " + ("'" + b + "'" + " " + ("'" + r + "'"));
    PartitionCommandWords(o, IntStr(bootSize), IntStr(rootSize));
    assert PartitionCommand(bootOffset, bootSize, rootSize)
        == "nand-part" + " " + ("-f" + " " + ("a20" + " " + ("/dev/nand" + " " + sizes)));
    SplitFixedWords(sizes);
    SplitSizeWords(o, b, r, ["nand-part", "-f", "a20", "/dev/nand"]);
    assert ["nand-part", "-f", "a20", "/dev/nand"] + [o, b, r] == PartitionArgv(bootOffset, bootSize, rootSize);
  }

  // ---------------------------------------------------------------------
  // Judging each tool by its output (exit status is never looked at)

  const PartitionMarker := "rereading partition table... returned 0"

  /** The driver check: the `ls /dev/nand` output names `/dev/nand`. That
      output includes `ls`'s own error message, so the check does not
      establish that the driver is loaded (`LsErrorPassesDriverCheck`). */
  predicate NandDriverPresent(lsOutput: string)
  {
    Contains(lsOutput, "/dev/nand")
  }

  datatype Dependences = DependencesOk | MkfsMsdosMissing | FdiskMissing

  /** `check_dependences`: `mkfs.msdos` must mention mkfs.fat, then `fdisk`
      must print its usage line; the first miss is reported. */
  function CheckDependences(mkfsOutput: string, fdiskOutput: string): (r: Dependences)
    ensures r == DependencesOk <==> Contains(mkfsOutput, "mkfs.fat") && Contains(fdiskOutput, "fdisk [options]")
    ensures r == MkfsMsdosMissing <==> !Contains(mkfsOutput, "mkfs.fat")
  {
    if !Contains(mkfsOutput, "mkfs.fat") then MkfsMsdosMissing
    else if !Contains(fdiskOutput, "fdisk [options]") then FdiskMissing
    else DependencesOk
  }

  /** `dd` reports "... bytes ... copied". */
  predicate BootloaderWritten(ddOutput: string)
  {
    Contains(ddOutput, "copied")
  }

  /** `mkfs.msdos -F16` prints "... using default ...". */
  predicate BootPartitionFormatted(mkfsOutput: string)
  {
    Contains(mkfsOutput, "using default")
  }

  /** `mkfs.ext4` prints "done" after each phase. */
  predicate RootPartitionFormatted(mkfsOutput: string)
  {
    Contains(mkfsOutput, "done")
  }

  /** `nand-part` succeeded: the marker is in the text read after the process
      ended or in the text drained while it ran, each searched on its own. */
  predicate PartitionsCreated(drained: string, trailing: string)
  {
    Contains(trailing, PartitionMarker) || Contains(drained, PartitionMarker)
  }

  /** What GNU `ls` writes to standard error when `/dev/nand` does not exist. */
  const LsMissingNode := "ls: cannot access '" + "/dev/nand" + "': No such file or directory"

  /** `ls`'s error for a missing device node names the node, and
      `getoutput` merges it into the output: the driver check passes
      without the driver. */
  lemma LsErrorPassesDriverCheck()
    ensures NandDriverPresent(LsMissingNode)
  {
    DriverCheckAcceptsMarker("ls: cannot access '", "': No such file or directory");
  }

  /** The driver check accepts any `ls` output that names the device,
      whatever precedes or follows it. */
  lemma DriverCheckAcceptsMarker(a: string, b: string)
    ensures NandDriverPresent(a + "/dev/nand" + b)
  {
    ContainsInfix(a, "/dev/nand", b);
  }

  /** The partition stage accepts the marker embedded anywhere in either
      piece of `nand-part`'s output. */
  lemma PartitionsCreatedAcceptsMarker(a: string, b: string, other: string)
    ensures PartitionsCreated(a + PartitionMarker + b, other)
    ensures PartitionsCreated(other, a + PartitionMarker + b)
  {
    ContainsInfix(a, PartitionMarker, b);
  }

  /** The `dd` and `mkfs` stages accept any output that embeds their
      phrase, whatever precedes or follows it. */
  lemma StageClassifiersAcceptMarker(a: string, b: string)
    ensures BootloaderWritten(a + "copied" + b)
    ensures BootPartitionFormatted(a + "using default" + b)
    ensures RootPartitionFormatted(a + "done" + b)
  {
    ContainsInfix(a, "copied", b);
    ContainsInfix(a, "using default", b);
    ContainsInfix(a, "done", b);
  }

  /** The fdisk probe is not consulted once mkfs.msdos is found missing. */
  lemma DependencesStopAtFirstMiss(mkfsOutput: string, fdisk1: string, fdisk2: string)
    requires !Contains(mkfsOutput, "mkfs.fat")
    ensures CheckDependences(mkfsOutput, fdisk1) == CheckDependences(mkfsOutput, fdisk2) == MkfsMsdosMissing
  {
  }

  /** Searching the two pieces separately finds the marker only if the
      joined text has it. */
  lemma PartitionsCreatedInJoined(drained: string, trailing: string)
    requires PartitionsCreated(drained, trailing)
    ensures Contains(drained + trailing, PartitionMarker)
  {
    if Contains(trailing, PartitionMarker) {
      ContainsWiden(drained, trailing, "", PartitionMarker);
      assert drained + trailing + "" == drained + trailing;
    } else {
      ContainsWiden("", drained, trailing, PartitionMarker);
      assert "" + drained + trailing == drained + trailing;
    }
  }

  /** ... but not conversely: on arbitrary pieces a marker split across the
      two is missed. Such pieces cannot come from a pipe, though: a drained
      piece without a newline is the end of the output, and nothing is read
      after it (`PartitionsCreatedOnPipe`). */
  lemma PartitionMarkerSplitIsMissed()
    ensures Contains("rereading partition table..." + " returned 0", PartitionMarker)
    ensures !PartitionsCreated("rereading partition table...", " returned 0")
    ensures !PipeReads(["rereading partition table..."], " returned 0")
  {
    assert !EndsInNewline(["rereading partition table..."][0]);
    assert "rereading partition table..." + " returned 0" == PartitionMarker;
    assert OccursAt(PartitionMarker, PartitionMarker, 0);
  }

  // ---------------------------------------------------------------------
  // The operator's answer

  datatype Answer = Proceed | Cancel | Invalid

  /** Lines 194-205: exactly one character, lowered; a 'y' goes on, an 'n'
      cancels, anything else (and any other length) is invalid. */
  function ConfirmationGate(option: string): Answer
  {
    if |option| == 1 then
      var lowered := LowerStr(option);
      if Contains(lowered, "y") then Proceed
      else if Contains(lowered, "n") then Cancel
      else Invalid
    else Invalid
  }

  lemma ContainsOneChar(c: char, d: char)
    ensures Contains([c], [d]) <==> c == d
  {
    assert [c][0..1] == [c];
    assert OccursAt([c], [d], 0) <==> c == d;
    assert Contains([c], [d]) <==> OccursAt([c], [d], 0);
  }

  /** Only "y" or "Y" goes on; only "n" or "N" cancels; everything else,
      the empty answer and "yes" included, is invalid. */
  lemma {:induction false} ConfirmationGateAnswers(option: string)
    ensures ConfirmationGate(option) == Proceed <==> option == "y" || option == "Y"
    ensures ConfirmationGate(option) == Cancel <==> option == "n" || option == "N"
    ensures ConfirmationGate(option) == Invalid <==> option !in {"y", "Y", "n", "N"}
  {
    if |option| == 1 {
      var c := option[0];
      assert LowerStr(option) == [Lower(c)];
      ContainsOneChar(Lower(c), 'y');
      ContainsOneChar(Lower(c), 'n');
      assert option == [c];
      assert Lower(c) == 'y' <==> c == 'y' || c == 'Y';
      assert Lower(c) == 'n' <==> c == 'n' || c == 'N';
    }
  }

  // ---------------------------------------------------------------------
  // create_nand_partitions

  /** All the lines, in order, as one text. */
  function Concat(lines: seq<string>): string
  {
    if lines == [] then "" else Concat(lines[..|lines| - 1]) + lines[|lines| - 1]
  }

  /** A marker on any one line is in the joined text. */
  lemma {:induction false} LineMarkerSeen(lines: seq<string>, k: nat, p: string)
    requires k < |lines| && Contains(lines[k], p)
    ensures Contains(Concat(lines), p)
    decreases |lines|
  {
    var init := lines[..|lines| - 1];
    if k == |lines| - 1 {
      ContainsWiden(Concat(init), lines[k], "", p);
      assert Concat(init) + lines[k] + "" == Concat(lines);
    } else {
      assert init[k] == lines[k];
      LineMarkerSeen(init, k, p);
      ContainsWiden("", Concat(init), lines[|lines| - 1], p);
      assert "" + Concat(init) + lines[|lines| - 1] == Concat(lines);
    }
  }

  predicate EndsInNewline(w: string)
  {
    w != [] && w[|w| - 1] == '\n'
  }

  /** What `readline` and `read` on a pipe can return: every line ends in a
      newline, except a last piece cut short by the end of the output, after
      which every `readline` and the final `read` return "". */
  predicate PipeReads(lines: seq<string>, trailing: string)
  {
    forall k :: 0 <= k < |lines| && !EndsInNewline(lines[k]) ==>
      trailing == [] && forall m :: k < m < |lines| ==> lines[m] == []
  }

  /** The marker is one line of `nand-part`'s output: it has no newline. */
  lemma MarkerHasNoNewline()
    ensures forall k :: 0 <= k < |PartitionMarker| ==> PartitionMarker[k] != '\n'
  {
  }

  /** Each character of an occurrence is the pattern's character. */
  lemma CharOfOccurrence(s: string, p: string, i: int, j: int)
    ensures OccursAt(s, p, i) && i <= j < i + |p| ==> s[j] == p[j - i]
  {
    if OccursAt(s, p, i) && i <= j < i + |p| {
      assert s[i..i + |p|][j - i] == s[j];
    }
  }

  /** A string without a newline, found in text whose first part is empty
      or ends in a newline, is found in one of the two parts. */
  lemma {:induction false} NoStraddle(c: string, t: string, p: string)
    requires c == [] || c[|c| - 1] == '\n'
    requires forall k :: 0 <= k < |p| ==> p[k] != '\n'
    requires Contains(c + t, p)
    ensures Contains(c, p) || Contains(t, p)
  {
    var i :| 0 <= i <= |c + t| - |p| && OccursAt(c + t, p, i);
    OccurrenceSides(c, t, p, i);
  }

  /** One occurrence of such a string lies wholly in one of the parts. */
  lemma OccurrenceSides(c: string, t: string, p: string, i: int)
    requires c == [] || c[|c| - 1] == '\n'
    requires forall k :: 0 <= k < |p| ==> p[k] != '\n'
    requires OccursAt(c + t, p, i)
    ensures OccursAt(c, p, i) || OccursAt(t, p, i - |c|)
  {
    NewlineInOccurrence(c, t, p, i);
    if i + |p| <= |c| {
      OccursInLeft(c, t, p, i);
    } else {
      OccursInRight(c, t, p, i);
    }
  }

  /** An occurrence covering the last character of a first part that ends
      in a newline has a newline at that place. */
  lemma NewlineInOccurrence(c: string, t: string, p: string, i: int)
    ensures OccursAt(c + t, p, i) && c != [] && c[|c| - 1] == '\n' && i <= |c| - 1 < i + |p| ==>
      p[|c| - 1 - i] == '\n'
  {
    CharOfOccurrence(c + t, p, i, |c| - 1);
    if c != [] {
      assert (c + t)[|c| - 1] == c[|c| - 1];
    }
  }

  /** An occurrence ending within the first part is an occurrence in it. */
  lemma OccursInLeft(c: string, t: string, p: string, i: int)
    requires OccursAt(c + t, p, i) && i + |p| <= |c|
    ensures OccursAt(c, p, i)
  {
    assert (c + t)[i..i + |p|] == c[i..i + |p|];
  }

  /** An occurrence starting after the first part is an occurrence in the
      second, shifted by the first part's length. */
  lemma OccursInRight(c: string, t: string, p: string, i: int)
    requires OccursAt(c + t, p, i) && |c| <= i
    ensures OccursAt(t, p, i - |c|)
  {
    assert (c + t)[i..i + |p|] == t[i - |c|..i - |c| + |p|];
  }

  /** On text read from a pipe, searching the two pieces separately is the
      same as searching them joined: the marker cannot straddle the join. */
  lemma {:induction false} PartitionsCreatedOnPipe(lines: seq<string>, trailing: string)
    requires PipeReads(lines, trailing)
    ensures PartitionsCreated(Concat(lines), trailing) <==> Contains(Concat(lines) + trailing, PartitionMarker)
  {
    var c := Concat(lines);
    if PartitionsCreated(c, trailing) {
      PartitionsCreatedInJoined(c, trailing);
    }
    if Contains(c + trailing, PartitionMarker) {
      if trailing == [] {
        assert c + trailing == c;
      } else {
        if lines != [] {
          assert EndsInNewline(lines[|lines| - 1]);
        }
        MarkerHasNoNewline();
        NoStraddle(c, trailing, PartitionMarker);
      }
    }
  }

  /** The drain loop of lines 101-103: each line `readline` returned while
      the process had not yet exited is appended to `dummy`. */
  method DrainOutput(lines: seq<string>) returns (dummy: string)
    ensures dummy == Concat(lines)
  {
    dummy := "";
    var i := 0;
    while i < |lines|
      invariant 0 <= i <= |lines|
      invariant dummy == Concat(lines[..i])
    {
      assert lines[..i + 1][..i] == lines[..i];
      dummy := dummy + lines[i];
      i := i + 1;
    }
    assert lines[..|lines|] == lines;
  }

  /** `create_nand_partitions`: the process gets the seven arguments built
      from the three integers; `streamed` are the lines drained while it ran
      and `trailing` is what `read()` returned after it exited. */
  method CreateNandPartitions(bootOffset: int, bootSize: int, rootSize: int, streamed: seq<string>, trailing: string)
    returns (argv: seq<string>, ok: bool)
    ensures argv == PartitionArgv(bootOffset, bootSize, rootSize)
    ensures ok <==> Contains(trailing, PartitionMarker) || Contains(Concat(streamed), PartitionMarker)
    ensures (exists k :: 0 <= k < |streamed| && Contains(streamed[k], PartitionMarker)) ==> ok
    ensures PipeReads(streamed, trailing) ==> (ok <==> Contains(Concat(streamed) + trailing, PartitionMarker))
  {
    var command := PartitionCommand(bootOffset, bootSize, rootSize);
    SplitPartitionCommand(bootOffset, bootSize, rootSize);
    argv := Shlex.Split(command).value;
    var dummy := DrainOutput(streamed);
    ok := PartitionsCreated(dummy, trailing);
    forall k | 0 <= k < |streamed| && Contains(streamed[k], PartitionMarker)
      ensures Contains(dummy, PartitionMarker)
    {
      LineMarkerSeen(streamed, k, PartitionMarker);
    }
    if PipeReads(streamed, trailing) {
      PartitionsCreatedOnPipe(streamed, trailing);
    }
  }

  // The mount, copy and unmount stages run shell commands through
  // `os.system` and never look at their results.

  /** `init_transfer` (lines 143-155): makes the mount points, mounts the
      two partitions and the SD card, and empties the root partition, then
      reports success unconditionally. */
  function InitTransferOk(): (ok: bool)
    ensures ok
  {
    true
  }

  /** `copy_distro_to_nand` (lines 158-167): unpacks the boot files and
      copies the kernel, `script.bin` and the root file system, then
      reports success unconditionally. */
  function CopyDistroToNandOk(): (ok: bool)
    ensures ok
  {
    true
  }

  /** `finishing` (lines 170-179): syncs and unmounts, then reports success
      unconditionally. */
  function FinishingOk(): (ok: bool)
    ensures ok
  {
    true
  }
}
