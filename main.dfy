/** The `__main__` block of nandwriter.py: the driver and tool checks, the
    sector query, the operator's confirmation, then seven stages in a fixed
    order. The first check or stage that fails ends the run, so nothing
    after it is attempted. */
module NandWriterMain {
  import opened PyStr
  import NW = NandWriter

  /** What the program received from each external tool during one run.
      A tool run by `commands.getoutput` gives its standard output and
      standard error merged, with one trailing newline removed
      (`NW.GetOutput` of what it printed). `nand-part` gives its standard
      output only: its standard error is not piped. */
  datatype ToolOutputs = ToolOutputs(
    lsNand: string,                 // getoutput of ls /dev/nand
    mkfsMsdosProbe: string,         // getoutput of mkfs.msdos, no arguments
    fdiskProbe: string,             // getoutput of fdisk, no arguments
    fdiskList: string,              // getoutput of fdisk -l /dev/nand
    ddOutput: string,               // getoutput of dd if=nand.mbr.img of=/dev/nand bs=1M count=1
    nandPartStreamed: seq<string>,  // lines readline returned from nand-part's stdout while it ran
    nandPartTrailing: string,       // what read returned from nand-part's stdout after it exited
    mkfsFat16Output: string,        // getoutput of mkfs.msdos -F16 /dev/nanda
    mkfsExt4Output: string)         // getoutput of mkfs.ext4 /dev/nandb

  /** The steps of a run, in the order the program takes them. */
  datatype Step =
    | CheckDriver | ProbeMkfsMsdos | ProbeFdisk | QuerySectors | Confirm
    | WriteBootloader | CreatePartitions | FormatBoot | FormatRoot
    | InitTransfer | CopyDistro | Finishing

  /** `Canceled` is the operator's "n"; `Aborted` is every other early end. */
  datatype Outcome = Completed | Canceled | Aborted

  /** The position of each step in the fixed order. */
  function Rank(s: Step): (r: nat)
    ensures r < 12
  {
    match s
    case CheckDriver => 0
    case ProbeMkfsMsdos => 1
    case ProbeFdisk => 2
    case QuerySectors => 3
    case Confirm => 4
    case WriteBootloader => 5
    case CreatePartitions => 6
    case FormatBoot => 7
    case FormatRoot => 8
    case InitTransfer => 9
    case CopyDistro => 10
    case Finishing => 11
  }

  /** The step taken just before `s`. */
  function Pred(s: Step): (p: Step)
    requires s != CheckDriver
    ensures Rank(p) + 1 == Rank(s)
  {
    match s
    case ProbeMkfsMsdos => CheckDriver
    case ProbeFdisk => ProbeMkfsMsdos
    case QuerySectors => ProbeFdisk
    case Confirm => QuerySectors
    case WriteBootloader => Confirm
    case CreatePartitions => WriteBootloader
    case FormatBoot => CreatePartitions
    case FormatRoot => FormatBoot
    case InitTransfer => FormatRoot
    case CopyDistro => InitTransfer
    case Finishing => CopyDistro
  }

  /** The steps a run that stopped at `last` attempted, in order: every step
      up to `last`, each at the position of its rank. */
  function Attempted(last: Step): (t: seq<Step>)
    ensures |t| == Rank(last) + 1 && t[Rank(last)] == last
    ensures forall k :: 0 <= k < |t| ==> Rank(t[k]) == k
    decreases Rank(last)
  {
    if last == CheckDriver then [CheckDriver] else Attempted(Pred(last)) + [last]
  }

  /** Whether the program judges the step a success, from the tools' output
      and the operator's answer. */
  predicate Succeeds(s: Step, tools: ToolOutputs, option: string)
  {
    match s
    case CheckDriver => NW.NandDriverPresent(tools.lsNand)
    case ProbeMkfsMsdos => NW.CheckDependences(tools.mkfsMsdosProbe, tools.fdiskProbe) != NW.MkfsMsdosMissing
    case ProbeFdisk => NW.CheckDependences(tools.mkfsMsdosProbe, tools.fdiskProbe) == NW.DependencesOk
    case QuerySectors => NW.GetNandSectors(tools.fdiskList).Ok?
    case Confirm => NW.ConfirmationGate(option) == NW.Proceed
    case WriteBootloader => NW.BootloaderWritten(tools.ddOutput)
    case CreatePartitions => NW.PartitionsCreated(NW.Concat(tools.nandPartStreamed), tools.nandPartTrailing)
    case FormatBoot => NW.BootPartitionFormatted(tools.mkfsFat16Output)
    case FormatRoot => NW.RootPartitionFormatted(tools.mkfsExt4Output)
    case InitTransfer => true
    case CopyDistro => true
    case Finishing => true
  }

  /** A run stops at `last` when every earlier step succeeded and `last`
      itself failed or is the final step. */
  predicate StopsAt(last: Step, tools: ToolOutputs, option: string)
  {
    && (forall s :: Rank(s) < Rank(last) ==> Succeeds(s, tools, option))
    && (last == Finishing || !Succeeds(last, tools, option))
  }

  lemma RankInjective(a: Step, b: Step)
    ensures Rank(a) == Rank(b) ==> a == b
  {
  }

  /** The step a run stops at is determined by the tools' output and the
      answer: it is the first step that fails. */
  lemma {:induction false} StopsAtUnique(a: Step, b: Step, tools: ToolOutputs, option: string)
    requires StopsAt(a, tools, option) && StopsAt(b, tools, option)
    ensures a == b
  {
    RankInjective(a, b);
  }

  /** Every step's check passes. */
  predicate AllChecksPass(tools: ToolOutputs, option: string)
  {
    forall s :: Succeeds(s, tools, option)
  }

  /** The first stage after the operator's "y" that fails, or `Finishing`
      when none does (`init_transfer` and `copy_distro_to_nand` never fail). */
  function FirstStageFailure(tools: ToolOutputs): (last: Step)
    ensures Rank(last) > Rank(Confirm)
    ensures last != InitTransfer && last != CopyDistro
  {
    if !NW.BootloaderWritten(tools.ddOutput) then WriteBootloader
    else if !NW.PartitionsCreated(NW.Concat(tools.nandPartStreamed), tools.nandPartTrailing) then CreatePartitions
    else if !NW.BootPartitionFormatted(tools.mkfsFat16Output) then FormatBoot
    else if !NW.RootPartitionFormatted(tools.mkfsExt4Output) then FormatRoot
    else Finishing
  }

  /** The step a run ends at: the first check or stage, in program order,
      that fails, or `Finishing` when none does. */
  function FirstFailure(tools: ToolOutputs, option: string): Step
  {
    var deps := NW.CheckDependences(tools.mkfsMsdosProbe, tools.fdiskProbe);
    if !NW.NandDriverPresent(tools.lsNand) then CheckDriver
    else if deps == NW.MkfsMsdosMissing then ProbeMkfsMsdos
    else if deps == NW.FdiskMissing then ProbeFdisk
    else if NW.GetNandSectors(tools.fdiskList).Err? then QuerySectors
    else if NW.ConfirmationGate(option) != NW.Proceed then Confirm
    else FirstStageFailure(tools)
  }

  /** The run does stop there: every earlier step succeeded, and that step
      failed unless it is the last one. */
  lemma {:induction false} FirstFailureStops(tools: ToolOutputs, option: string)
    ensures StopsAt(FirstFailure(tools, option), tools, option)
  {
    var last := FirstFailure(tools, option);
    forall s | Rank(s) < Rank(last)
      ensures Succeeds(s, tools, option)
    {
      match s
      case CheckDriver =>
      case ProbeMkfsMsdos =>
      case ProbeFdisk =>
      case QuerySectors =>
      case Confirm =>
      case WriteBootloader =>
      case CreatePartitions =>
      case FormatBoot =>
      case FormatRoot =>
      case InitTransfer =>
      case CopyDistro =>
      case Finishing =>
    }
  }

  /** ... and at no other step. */
  lemma FirstFailureUnique(last: Step, tools: ToolOutputs, option: string)
    requires StopsAt(last, tools, option)
    ensures last == FirstFailure(tools, option)
  {
    FirstFailureStops(tools, option);
    StopsAtUnique(last, FirstFailure(tools, option), tools, option);
  }

  /** A run reaches the end exactly when every check passes. */
  lemma {:induction false} CompletesIffAllChecksPass(tools: ToolOutputs, option: string)
    ensures FirstFailure(tools, option) == Finishing <==> AllChecksPass(tools, option)
  {
    var last := FirstFailure(tools, option);
    FirstFailureStops(tools, option);
    if last == Finishing {
      forall s
        ensures Succeeds(s, tools, option)
      {
        RankInjective(s, Finishing);
      }
    }
  }

  /** Nothing is written to the device before the driver and tool checks
      pass, the sector count is read and the operator answers "y". */
  lemma {:induction false} NoWriteBeforeConsent(tools: ToolOutputs, option: string)
    requires Rank(FirstFailure(tools, option)) > Rank(Confirm)
    ensures NW.NandDriverPresent(tools.lsNand)
    ensures NW.CheckDependences(tools.mkfsMsdosProbe, tools.fdiskProbe) == NW.DependencesOk
    ensures NW.CalcRootPartitionSize(tools.fdiskList).Ok?
    ensures option == "y" || option == "Y"
  {
    NW.ConfirmationGateAnswers(option);
  }

  /** Lines 184-210: the driver and tool checks, the sector query and the
      prompt. `proceed` is the operator's "y" after every check passed;
      otherwise `last` is the step that stopped the run. */
  method Preflight(tools: ToolOutputs, option: string) returns (last: Step, proceed: bool, rootSize: int, ghost trace: seq<Step>)
    ensures trace == Attempted(last)
    ensures proceed <==> Rank(FirstFailure(tools, option)) > Rank(Confirm)
    ensures !proceed ==> last == FirstFailure(tools, option)
    ensures proceed ==> last == Confirm && NW.CalcRootPartitionSize(tools.fdiskList) == Ok(rootSize)
    ensures proceed ==> FirstFailure(tools, option) == FirstStageFailure(tools)
  {
    proceed, rootSize := false, 0;
    last := CheckDriver;
    trace := [last];
    if !NW.NandDriverPresent(tools.lsNand) {
      return;
    }
    last := ProbeMkfsMsdos;
    trace := trace + [last];
    var deps := NW.CheckDependences(tools.mkfsMsdosProbe, tools.fdiskProbe);
    if deps == NW.MkfsMsdosMissing {
      return;
    }
    last := ProbeFdisk;
    trace := trace + [last];
    if deps == NW.FdiskMissing {
      return;
    }

    // int() raising ValueError ends the program here
    last := QuerySectors;
    trace := trace + [last];
    var sectors := NW.GetNandSectors(tools.fdiskList);
    var root := NW.CalcRootPartitionSize(tools.fdiskList);
    if sectors.Err? {
      return;
    }
    rootSize := root.value;

    last := Confirm;
    trace := trace + [last];
    var answer := NW.ConfirmationGate(option);
    if answer != NW.Proceed {
      return;
    }
    proceed := true;
  }

  /** Lines 211-256: the stages that write to the device, each started only
      when the one before it printed its success phrase. */
  method Deploy(tools: ToolOutputs, rootSize: int, ghost before: seq<Step>) returns (last: Step, partitionArgv: seq<string>, ghost trace: seq<Step>)
    requires before == Attempted(Confirm)
    ensures trace == Attempted(last)
    ensures last == FirstStageFailure(tools)
    ensures Rank(last) < Rank(CreatePartitions) ==> partitionArgv == []
    ensures Rank(last) >= Rank(CreatePartitions) ==>
              partitionArgv == NW.PartitionArgv(NW.BootPartitionOffset, NW.BootPartitionSize, rootSize)
  {
    partitionArgv := [];
    last := WriteBootloader;
    trace := before + [last];
    if !NW.BootloaderWritten(tools.ddOutput) {
      return;
    }

    last := CreatePartitions;
    trace := trace + [last];
    var created;
    partitionArgv, created := NW.CreateNandPartitions(NW.BootPartitionOffset, NW.BootPartitionSize, rootSize,
                                                      tools.nandPartStreamed, tools.nandPartTrailing);
    if !created {
      return;
    }

    last := FormatBoot;
    trace := trace + [last];
    if !NW.BootPartitionFormatted(tools.mkfsFat16Output) {
      return;
    }

    last := FormatRoot;
    trace := trace + [last];
    if !NW.RootPartitionFormatted(tools.mkfsExt4Output) {
      return;
    }

    last := InitTransfer;
    trace := trace + [last];
    if !NW.InitTransferOk() {
      return;
    }

    last := CopyDistro;
    trace := trace + [last];
    if !NW.CopyDistroToNandOk() {
      return;
    }

    // the result of finishing() is not looked at
    last := Finishing;
    trace := trace + [last];
    var _ := NW.FinishingOk();
  }

  /** One run of the program. `last` is the last step attempted and `trace`
      the steps attempted, in order; `rootSize` is the root partition size
      computed before the prompt; `partitionArgv` is the argument vector
      `nand-part` was started with, empty when it was not started. */
  method Run(tools: ToolOutputs, option: string) returns (last: Step, outcome: Outcome, rootSize: int, partitionArgv: seq<string>, ghost trace: seq<Step>)
    ensures last == FirstFailure(tools, option)
    ensures trace == Attempted(last)
    ensures outcome == Completed <==> last == Finishing
    ensures outcome == Canceled <==> last == Confirm && NW.ConfirmationGate(option) == NW.Cancel
    // nand-part gets the fixed boot geometry and the root size from fdisk
    ensures Rank(last) < Rank(CreatePartitions) ==> partitionArgv == []
    ensures Rank(last) >= Rank(CreatePartitions) ==>
              && NW.CalcRootPartitionSize(tools.fdiskList) == Ok(rootSize)
              && partitionArgv == NW.PartitionArgv(NW.BootPartitionOffset, NW.BootPartitionSize, rootSize)
  {
    var proceed;
    last, proceed, rootSize, trace := Preflight(tools, option);
    partitionArgv := [];
    if !proceed {
      outcome := if last == Confirm && NW.ConfirmationGate(option) == NW.Cancel then Canceled else Aborted;
      return;
    }
    last, partitionArgv, trace := Deploy(tools, rootSize, trace);
    outcome := if last == Finishing then Completed else Aborted;
  }

  /** A `dd` that does not report "copied" stops the run before `nand-part`
      is ever started (so `Run` gives an empty argument vector). */
  lemma BootloaderFailureSkipsPartitioning(tools: ToolOutputs, option: string)
    requires !NW.BootloaderWritten(tools.ddOutput)
    ensures Rank(FirstFailure(tools, option)) <= Rank(WriteBootloader)
  {
  }

  /** An answer other than "y" or "Y" stops the run at the prompt or before
      it, so nothing is written to the device; "n" or "N" at the prompt is a
      cancellation. */
  lemma RefusedAnswerTouchesNothing(tools: ToolOutputs, option: string)
    requires option != "y" && option != "Y"
    ensures Rank(FirstFailure(tools, option)) <= Rank(Confirm)
    ensures FirstFailure(tools, option) == Confirm ==>
              (NW.ConfirmationGate(option) == NW.Cancel <==> option == "n" || option == "N")
  {
    NW.ConfirmationGateAnswers(option);
  }
}
