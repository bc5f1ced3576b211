/** The single-run script: the launcher with one slot, one triple run twice,
    and a fixed output directory (no suffix stripping). */
module OneExperiment {
  import Launcher

  const ExperimentFolder: string := "D:\\codes\\RAWSim-OData\\debug"
  const InstanceFolder: string := "D:\\codes\\RAWSim-O\\Material\\Instances\\SquareLayouts"
  const SettingFolder: string := "D:\\codes\\RAWSim-O\\Material\\configFiles"
  const ControllerFolder: string := "D:\\codes\\RAWSim-O\\Material\\configFiles"
  const Iteration: nat := 2
  const ParalleledNum: nat := 1

  const FileNames: seq<Launcher.Triple> := [Launcher.Triple("Sv1r60", "JOSi100o500q", "SAIn")]

  /** `["dotnet", "run", instPath, settPath, contPath, experimentFolder]`:
      the output directory is the fixed experiment folder, whatever the triple. */
  function MakeCommand(t: Launcher.Triple): (c: Launcher.Command)
    ensures |c| == 6 && c[0] == "dotnet" && c[1] == "run"
    ensures c[5] == ExperimentFolder
  {
    [ "dotnet", "run",
      InstanceFolder + "\\" + t.instance + ".xlayo",
      SettingFolder + "\\" + t.setting + ".xsett",
      ControllerFolder + "\\" + t.controller + ".xconf",
      ExperimentFolder ]
  }

  /** Two identical commands, one per iteration, both writing to the fixed
      experiment folder. */
  method ExperimentCommands() returns (cmds: seq<Launcher.Command>)
    ensures |cmds| == Iteration * |FileNames| == 2
    ensures cmds[0] == cmds[1] == MakeCommand(FileNames[0])
    ensures forall k :: 0 <= k < |cmds| ==> |cmds[k]| == 6 && cmds[k][5] == ExperimentFolder
  {
    cmds := Launcher.BuildCommands(Iteration, FileNames, MakeCommand);
    assert 1 % 1 == 0;
  }

  /** The script's main block. With a single slot no other simulator is live
      when a command is spawned, so the two runs happen one after the other,
      in list order. */
  method RunExperiment(finishAt: Launcher.Handle -> nat, clock: Launcher.Handle -> string)
    returns (l: Launcher.Pool)
    ensures l.cmds.Length == 2 && l.processes == [] && l.nextURLNo == 2
    ensures l.reaped == Launcher.Below(2)
    ensures forall k :: 0 <= k < 2 ==> l.cmds[k] == MakeCommand(FileNames[0]) + [clock(k)]
    ensures |l.liveAtStart| == 2 && l.liveAtStart[0] == [] && l.liveAtStart[1] == []
  {
    var cmds := ExperimentCommands();
    l := new Launcher.Pool(cmds, ParalleledNum);
    l.Run(finishAt, clock);
    forall k | 0 <= k < 2 ensures l.cmds[k] == MakeCommand(FileNames[0]) + [clock(k)] {
      assert l.base[k] == cmds[k];
    }
    assert |l.liveAtStart[0]| < 1 && |l.liveAtStart[1]| < 1;
  }
}
