/**
 Factory reset of the static-layout host flash: list the partitions flagged
 for reprovisioning, suspend the flash-access mediation service, clear each
 listed partition, resume the service. The guard-record reset runs the same
 bracket around the one GUARD partition.
 */
module ResetEngine {
  import opened FlashTool
  import opened PartitionInventory
  import opened Text
  import opened Wrappers

  /** `t` brackets the clearing of `parts`: one suspend first, then one
      clear per partition in list order with the mode its ECC bit selects,
      each attempted whatever the exit status of the ones before, then one
      resume last. */
  ghost predicate Bracketed(t: seq<Event>, pflash: Command -> ToolResult, parts: seq<PartClear>)
  {
    && |t| == |parts| + 2
    && t[0] == Suspend
    && t[|t| - 1] == Resume
    && (forall i :: 0 <= i < |t| && t[i] == Suspend ==> i == 0)
    && (forall i :: 0 <= i < |t| && t[i] == Resume ==> i == |t| - 1)
    && (forall k :: 0 <= k < |parts| ==>
          t[k + 1] == PnorClear(pflash, parts[k].name, parts[k].ecc))
  }

  /** The partitions a factory reset clears: those the listing names. The
      exit status of the listing run is not looked at. */
  function ResetCandidates(p: Platform): (r: seq<PartClear>)
    ensures var ls := Lines(p.pflash(ListPartitions).output);
      forall part :: part in r <==> exists k :: 0 <= k < |ls| && ParseLine(ls[k]) == Some(part)
  {
    var out := p.pflash(ListPartitions).output;
    var r := GetPartsToClear(out);
    assert forall part :: part in r <==>
      exists k :: 0 <= k < |Lines(out)| && ParseLine(Lines(out)[k]) == Some(part);
    r
  }

  /** The `pflash` command that clears one listed partition. */
  function ClearCommand(part: PartClear): Command
  {
    ClearPartition(part.name, ModeFor(part.ecc))
  }

  /** How many of the partitions, from the front, have a clear that can be
      started; `starts` says for each command whether `pflash` can be
      launched at all (a failed launch throws). */
  function Startable(starts: Command -> bool, parts: seq<PartClear>): (n: nat)
    ensures n <= |parts|
    ensures forall k :: 0 <= k < n ==> starts(ClearCommand(parts[k]))
    ensures n < |parts| ==> !starts(ClearCommand(parts[n]))
    decreases |parts|
  {
    if parts == [] || !starts(ClearCommand(parts[0])) then 0
    else 1 + Startable(starts, parts[1..])
  }

  /** The clearing loop as the source writes it: one clear per partition in
      order, until a clear cannot be started; that throw leaves the loop.
      The result is the clears made and whether the loop threw. */
  function ClearLoop(pflash: Command -> ToolResult, starts: Command -> bool, parts: seq<PartClear>)
    : (r: (seq<Event>, bool))
    ensures r.1 <==> Startable(starts, parts) < |parts|
    ensures |r.0| == Startable(starts, parts)
    ensures forall k :: 0 <= k < |r.0| ==> r.0[k] == PnorClear(pflash, parts[k].name, parts[k].ecc)
    decreases |parts|
  {
    if parts == [] then ([], false)
    else if !starts(ClearCommand(parts[0])) then ([], true)
    else
      var rest := ClearLoop(pflash, starts, parts[1..]);
      ([PnorClear(pflash, parts[0].name, parts[0].ecc)] + rest.0, rest.1)
  }

  /** The bracket as the source writes it: suspend, the clearing loop, then
      resume, which a throw out of the loop skips, leaving the service
      suspended. */
  function BracketAsWritten(pflash: Command -> ToolResult, starts: Command -> bool, parts: seq<PartClear>)
    : (r: (seq<Event>, bool))
    ensures r.1 <==> exists k :: 0 <= k < |parts| && !starts(ClearCommand(parts[k]))
    ensures r.1 ==> Resume !in r.0
    ensures !r.1 ==> Bracketed(r.0, pflash, parts)
  {
    var loop := ClearLoop(pflash, starts, parts);
    assert forall k :: 0 <= k < |loop.0| ==> loop.0[k].Invoke?;
    if loop.1 then
      assert !starts(ClearCommand(parts[Startable(starts, parts)]));
      ([Suspend] + loop.0, true)
    else
      var t := [Suspend] + loop.0 + [Resume];
      assert forall k :: 0 <= k < |parts| ==> t[k + 1] == loop.0[k];
      (t, false)
  }

  /** A reset whose first clear cannot be started: the service is suspended
      and never resumed. */
  lemma ThrowLeavesServiceSuspended(pflash: Command -> ToolResult, starts: Command -> bool, parts: seq<PartClear>)
    requires |parts| > 0 && !starts(ClearCommand(parts[0]))
    ensures BracketAsWritten(pflash, starts, parts) == ([Suspend], true)
  {
    assert [Suspend] + ClearLoop(pflash, starts, parts).0 == [Suspend];
  }

  /** The guard-record reset as written: when its GUARD clear cannot be
      started, the service is suspended and never resumed. */
  lemma GardResetAsWrittenLosesResume(pflash: Command -> ToolResult, starts: Command -> bool)
    requires !starts(ClearPartition("GUARD", EccClear))
    ensures BracketAsWritten(pflash, starts, [PartClear("GUARD", true)]) == ([Suspend], true)
  {
    ThrowLeavesServiceSuspended(pflash, starts, [PartClear("GUARD", true)]);
  }

  /** Suspend, clear each partition in order until one cannot be started,
      and resume on every way out of the loop, thrown or not: the
      as-written bracket with the resume it can lose put back. */
  method ClearBracket(pflash: Command -> ToolResult, starts: Command -> bool, parts: seq<PartClear>)
    returns (trace: seq<Event>, threw: bool)
    ensures threw == BracketAsWritten(pflash, starts, parts).1
    ensures trace == BracketAsWritten(pflash, starts, parts).0 + (if threw then [Resume] else [])
    ensures Bracketed(trace, pflash, parts[..Startable(starts, parts)])
    ensures !threw ==> Bracketed(trace, pflash, parts)
  {
    trace := [Suspend];
    threw := false;
    var i := 0;
    while i < |parts| && !threw
      invariant 0 <= i <= |parts|
      invariant |trace| == i + 1
      invariant trace[0] == Suspend
      invariant forall k :: 1 <= k < |trace| ==> trace[k].Invoke?
      invariant forall k :: 0 <= k < i ==>
        trace[k + 1] == PnorClear(pflash, parts[k].name, parts[k].ecc)
      invariant forall k :: 0 <= k < i ==> starts(ClearCommand(parts[k]))
      invariant threw ==> i < |parts| && !starts(ClearCommand(parts[i]))
      decreases |parts| - i, if threw then 0 else 1
    {
      if !starts(ClearCommand(parts[i])) {
        threw := true;
      } else {
        trace := trace + [PnorClear(pflash, parts[i].name, parts[i].ecc)];
        i := i + 1;
      }
    }
    ghost var n := Startable(starts, parts);
    assert i == n;
    ghost var loop := ClearLoop(pflash, starts, parts);
    assert trace == [Suspend] + loop.0;
    trace := trace + [Resume];
    assert parts[..n] == parts[..i];
    if !threw {
      assert parts[..n] == parts;
    }
  }

  /** The host factory reset: one listing run, then the bracket over the
      partitions it names. A listing run that cannot be started throws
      before anything is suspended. */
  method Reset(p: Platform, starts: Command -> bool) returns (trace: seq<Event>, threw: bool)
    ensures !starts(ListPartitions) ==> trace == [] && threw
    ensures starts(ListPartitions) ==>
      && |trace| >= 3
      && trace[0] == Invoke(ListPartitions, p.pflash(ListPartitions).rc)
      && Bracketed(trace[1..], p.pflash, ResetCandidates(p)[..Startable(starts, ResetCandidates(p))])
      && (threw <==> Startable(starts, ResetCandidates(p)) < |ResetCandidates(p)|)
    ensures !threw ==> |trace| >= 3 && Bracketed(trace[1..], p.pflash, ResetCandidates(p))
  {
    if !starts(ListPartitions) {
      trace, threw := [], true;
      return;
    }
    var parts := ResetCandidates(p);
    var cleared;
    cleared, threw := ClearBracket(p.pflash, starts, parts);
    trace := [Invoke(ListPartitions, p.pflash(ListPartitions).rc)] + cleared;
    assert trace[1..] == cleared;
  }

  /** The guard-record reset: the bracket around the GUARD partition alone,
      cleared with the default ECC-keeping mode. */
  method GardReset(p: Platform, starts: Command -> bool) returns (trace: seq<Event>, threw: bool)
    ensures threw <==> !starts(ClearPartition("GUARD", EccClear))
    ensures !threw ==> Bracketed(trace, p.pflash, [PartClear("GUARD", true)])
    ensures threw ==> trace == [Suspend, Resume]
  {
    trace, threw := ClearBracket(p.pflash, starts, [PartClear("GUARD", true)]);
  }

  /** Inside a bracket every clear comes strictly after the suspend and
      strictly before the resume, and a clear uses `-c` exactly for an
      ECC partition. */
  lemma ClearsInsideBracket(t: seq<Event>, pflash: Command -> ToolResult, parts: seq<PartClear>)
    requires Bracketed(t, pflash, parts)
    ensures forall i :: 0 <= i < |t| && t[i].Invoke? ==> 0 < i < |t| - 1
    ensures forall k :: 0 <= k < |parts| ==>
      t[k + 1].cmd == ClearPartition(parts[k].name, ModeFor(parts[k].ecc))
  {
    forall i | 0 <= i < |t| && t[i].Invoke?
      ensures 0 < i < |t| - 1
    {
    }
  }
}
