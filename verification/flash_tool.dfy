/**
 The updater's view of the outside world: the `pflash` tool, run as a
 subprocess that returns an exit status and its captured output, the
 scratch directory the version is read into, and the flash-access mediation
 service that is suspended around destructive operations. Everything the
 updater does to the world is recorded as a trace of events.
 */
module FlashTool {
  import VersionBlob

  /** `-c`: clear keeping the ECC bytes valid; `-e`: plain erase. */
  datatype ClearMode = EccClear | Erase

  /** The `pflash` invocations the updater makes. */
  datatype Command =
    | ReadVersion                                   // -P VERSION -r <file>
    | ListPartitions                                // -i | grep ^ID | grep 'F'
    | ClearPartition(part: string, mode: ClearMode) // -P <part> -c|-e -f

  /** Exit status and captured standard output of one run. */
  datatype ToolResult = ToolResult(rc: int, output: string)

  /** What the updater does to the world, in order. */
  datatype Event =
    | Suspend                       // hiomapd suspend
    | Resume                        // hiomapd resume
    | Invoke(cmd: Command, rc: int) // a pflash run and its exit status

  /** The environment of one run of the updater: whether the scratch
      directory can be created, what each `pflash` command returns, and the
      bytes `pflash` leaves in the scratch file when it reads VERSION (a
      missing file reads as no bytes). */
  datatype Platform = Platform(
    tmpDirCreated: bool,
    pflash: Command -> ToolResult,
    versionFile: seq<bv8>)

  /** The clear mode for a partition: `-c` exactly when ECC must be kept. */
  function ModeFor(shouldEcc: bool): (m: ClearMode)
  {
    if shouldEcc then EccClear else Erase
  }

  /** Clearing one partition: a single `pflash` run whose exit status is only
      logged, never acted upon. */
  function PnorClear(pflash: Command -> ToolResult, part: string, shouldEcc: bool): (e: Event)
    ensures e.Invoke? && e.cmd.ClearPartition? && e.cmd.part == part
    ensures e.cmd.mode == EccClear <==> shouldEcc
    ensures e.rc == pflash(e.cmd).rc
  {
    var cmd := ClearPartition(part, ModeFor(shouldEcc));
    Invoke(cmd, pflash(cmd).rc)
  }

  /** Bytes taken as characters one for one, as `std::string` holds them. */
  function ToText(bytes: seq<bv8>): (s: string)
    ensures |s| == |bytes|
    ensures forall k :: 0 <= k < |bytes| ==> s[k] as int == bytes[k] as int
  {
    seq(|bytes|, k requires 0 <= k < |bytes| => (bytes[k] as int) as char)
  }

  /** The outcome of reading the version: the text, the tool runs made, and
      whether the scratch directory is left behind afterwards. */
  datatype VersionRead = VersionRead(text: string, trace: seq<Event>, scratchLeft: bool)

  /** Reading the firmware version as the source writes it: create the
      scratch directory, have `pflash` copy the VERSION partition into it,
      decode the copy, remove the directory. A failed copy returns before
      the removal. */
  function GetPnorVersionAsWritten(p: Platform): (r: VersionRead)
    ensures r.scratchLeft <==> p.tmpDirCreated && p.pflash(ReadVersion).rc != 0
  {
    if !p.tmpDirCreated then VersionRead([], [], false)
    else
      var rc := p.pflash(ReadVersion).rc;
      if rc != 0 then VersionRead([], [Invoke(ReadVersion, rc)], true)
      else
        var bytes := VersionBlob.DecodeVersion(p.versionFile);
        assert forall k :: 0 <= k < |bytes| ==> bytes[k] != 0;
        VersionRead(ToText(bytes), [Invoke(ReadVersion, rc)], false)
  }

  /** Reading the firmware version with the scratch directory removed on
      every way out that created it; text and tool runs as written. */
  function GetPnorVersion(p: Platform): (r: VersionRead)
    ensures !p.tmpDirCreated ==> r.text == [] && r.trace == []
    ensures p.tmpDirCreated ==> r.trace == [Invoke(ReadVersion, p.pflash(ReadVersion).rc)]
    ensures p.tmpDirCreated && p.pflash(ReadVersion).rc != 0 ==> r.text == []
    ensures p.tmpDirCreated && p.pflash(ReadVersion).rc == 0 ==>
      |r.text| == |VersionBlob.DecodeVersion(p.versionFile)|
      && forall k :: 0 <= k < |r.text| ==>
           r.text[k] as int == VersionBlob.DecodeVersion(p.versionFile)[k] as int
    ensures '\0' !in r.text
    ensures !r.scratchLeft
  {
    GetPnorVersionAsWritten(p).(scratchLeft := false)
  }

  /** A failed VERSION copy leaves the scratch directory behind as written;
      the corrected read removes it and returns the same text and runs. */
  lemma FailedReadLeavesScratch(p: Platform)
    requires p.tmpDirCreated && p.pflash(ReadVersion).rc != 0
    ensures GetPnorVersionAsWritten(p).scratchLeft
    ensures !GetPnorVersion(p).scratchLeft
    ensures GetPnorVersion(p).text == GetPnorVersionAsWritten(p).text == []
    ensures GetPnorVersion(p).trace == GetPnorVersionAsWritten(p).trace
  {
  }
}
