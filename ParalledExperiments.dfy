/** The parallel sweep script: 70 (instance, setting, controller) triples,
    one command per triple and iteration, at most eight simulators at once.
    Each command writes to a directory named after the instance with its
    "r<botCount>" suffix stripped, so all bot counts of one layout share it. */
module ParalledExperiments {
  import opened Naming
  import Launcher

  const ExperimentFolder: string := "D:\\codes\\RAWSim-OData\\result0703"
  const InstanceFolder: string := "D:\\codes\\RAWSim-O\\Material\\Instances\\SquareLayouts"
  const SettingFolder: string := "D:\\codes\\RAWSim-O\\Material\\configFiles"
  const ControllerFolder: string := "D:\\codes\\RAWSim-O\\Material\\configFiles"
  const Iteration: nat := 1
  const ParalleledNum: nat := 8

  const Setting: string := "JOSi1000o500"
  /** The controller list, duplicates included. */
  const Controllers: seq<string> := ["HADODn", "SEQUn", "SAIn", "SEQUn", "SAIn", "SEQUn", "SAIn"]

  /** `f'{instance}v{version}r{botNum}'` */
  function InstanceName(instance: string, version: nat, botNum: nat): string {
    VariantName(instance + "v" + NatToString(version), botNum)
  }

  /** The instance names of the sweep: instance "S", version 5. */
  function SweepInstance(botNum: nat): string {
    InstanceName("S", 5, botNum)
  }

  /** The sweep instance for `botNum` is spelled "Sv5r<botNum>" and strips
      back to "Sv5", so every bot count of the layout shares one output
      directory. */
  lemma SweepInstanceSpelled(botNum: nat)
    ensures SweepInstance(botNum) == "Sv5r" + NatToString(botNum)
    ensures StripSuffix(SweepInstance(botNum)) == "Sv5"
  {
    StripVariantName("S" + "v" + NatToString(5), botNum);
  }

  /** Entry k of the sweep: bot count outer, controller inner. */
  function SweepEntry(k: nat): Launcher.Triple
    requires k < 70
  {
    Launcher.Triple(SweepInstance(10 * (k / 7) + 10), Setting, Controllers[k % 7])
  }

  /** Entry `7 * b + c` is bot count `10 * b + 10` with controller `c`. */
  lemma SweepEntryAt(b: nat, c: nat)
    requires b < 10 && c < 7
    ensures SweepEntry(7 * b + c) == Launcher.Triple(SweepInstance(10 * b + 10), Setting, Controllers[c])
  {
    var k := 7 * b + c;
    assert k == b * 7 + c;
    Launcher.IterationSlot(b, c, 7);
    assert k / 7 == b && k % 7 == c;
  }

  /** Appending the next sweep entry keeps a prefix of the sweep a prefix. */
  lemma ExtendSweep(fs: seq<Launcher.Triple>, t: Launcher.Triple)
    requires |fs| < 70
    requires forall k :: 0 <= k < |fs| ==> fs[k] == SweepEntry(k)
    requires t == SweepEntry(|fs|)
    ensures forall k :: 0 <= k < |fs| + 1 ==> (fs + [t])[k] == SweepEntry(k)
  {
  }

  /** The sweep `for botNum in range(10, 110, 10): for controller in Controllers`
      inside the one-element loops over instance "S", version 5 and the setting;
      `b` counts the bot-count rounds. */
  method BuildFileNames() returns (fileNames: seq<Launcher.Triple>)
    ensures |fileNames| == 10 * |Controllers| == 70
    ensures forall k :: 0 <= k < |fileNames| ==> fileNames[k] == SweepEntry(k)
  {
    fileNames := [];
    var b, botNum := 0, 10;
    while botNum < 110
      invariant 0 <= b <= 10 && botNum == 10 * b + 10
      invariant |fileNames| == 7 * b
      invariant forall k :: 0 <= k < |fileNames| ==> fileNames[k] == SweepEntry(k)
    {
      var c := 0;
      while c < |Controllers|
        invariant 0 <= c <= 7
        invariant |fileNames| == 7 * b + c
        invariant forall k :: 0 <= k < |fileNames| ==> fileNames[k] == SweepEntry(k)
      {
        var t := Launcher.Triple(SweepInstance(botNum), Setting, Controllers[c]);
        SweepEntryAt(b, c);
        ExtendSweep(fileNames, t);
        fileNames := fileNames + [t];
        c := c + 1;
      }
      b, botNum := b + 1, botNum + 10;
    }
  }

  /** `["dotnet", "run", instPath, settPath, contPath, outputDir]`. The output
      directory is the instance with its "r<botCount>" suffix stripped: every
      bot-count variant of a layout writes to the directory of the layout. */
  function MakeCommand(t: Launcher.Triple): (c: Launcher.Command)
    ensures |c| == 6 && c[0] == "dotnet" && c[1] == "run"
    ensures forall name, count: nat :: t.instance == VariantName(name, count) ==>
      c[5] == ExperimentFolder + "\\" + name
    ensures 'r' !in t.instance ==> c[5] == ExperimentFolder + "\\" + t.instance
  {
    StripVariantNames();
    [ "dotnet", "run",
      InstanceFolder + "\\" + t.instance + ".xlayo",
      SettingFolder + "\\" + t.setting + ".xsett",
      ControllerFolder + "\\" + t.controller + ".xconf",
      ExperimentFolder + "\\" + StripSuffix(t.instance) ]
  }

  /** The command list of the script, with the triple each entry was built from:
      entry k belongs to triple `k % 70`, the one the progress message names. */
  method ExperimentCommands() returns (fileNames: seq<Launcher.Triple>, cmds: seq<Launcher.Command>)
    ensures |fileNames| == 70 && |cmds| == Iteration * 70
    ensures forall k :: 0 <= k < 70 ==> fileNames[k] == SweepEntry(k)
    ensures forall k :: 0 <= k < |cmds| ==> cmds[k] == MakeCommand(fileNames[k % |fileNames|])
    ensures forall k :: 0 <= k < |cmds| ==>
      |cmds[k]| == 6 && cmds[k][5] == ExperimentFolder + "\\" + "Sv5"
  {
    fileNames := BuildFileNames();
    cmds := Launcher.BuildCommands(Iteration, fileNames, MakeCommand);
    forall k | 0 <= k < |cmds|
      ensures |cmds[k]| == 6 && cmds[k][5] == ExperimentFolder + "\\" + "Sv5"
    {
      SweepInstanceSpelled(10 * ((k % 70) / 7) + 10);
    }
  }

  /** The script's main block: build the commands, run them eight at a time
      until every process has exited. */
  method RunSweep(finishAt: Launcher.Handle -> nat, clock: Launcher.Handle -> string)
    returns (fileNames: seq<Launcher.Triple>, l: Launcher.Pool)
    ensures |fileNames| == 70 && l.cmds.Length == 70
    ensures forall k :: 0 <= k < 70 ==> fileNames[k] == SweepEntry(k)
    ensures l.parallelNum == ParalleledNum && l.WithinLimit()
    ensures l.processes == [] && l.nextURLNo == 70
    ensures l.reaped == Launcher.Below(70)
    ensures forall k :: 0 <= k < 70 ==> l.cmds[k] == MakeCommand(fileNames[k]) + [clock(k)]
  {
    var cmds;
    fileNames, cmds := ExperimentCommands();
    l := new Launcher.Pool(cmds, ParalleledNum);
    l.Run(finishAt, clock);
    forall k | 0 <= k < 70 ensures l.cmds[k] == MakeCommand(fileNames[k]) + [clock(k)] {
      assert k % 70 == k;
      assert l.base[k] == cmds[k];
    }
  }
}
