/**
 * The move dialog as a small state machine: idle, then moving, then
 * complete or cancelled. The awaited move operation is a call this model
 * cannot see, so a move is split at the await: `BeginMove` runs up to the
 * call and hands back the destination it passes, `EndMove` runs from the
 * call's outcome to the end of the handler. `ExecuteMove` composes the two.
 */
module MoveDialog {
  import opened Common
  import opened FreeSpace

  /** How the awaited move operation ended. */
  datatype MoveOutcome =
    | Completed
    | Cancelled                // it threw OperationCanceledException
    | Faulted(message: string) // it threw anything else

  const CompletedMessage: string := "Move completed successfully."
  const CancelledMessage: string := "Move cancelled. The original partition is unchanged."
  const MovingMessage: string := "Moving partition…"
  const StartingStatus: string := "Starting…"

  class MovePartitionViewModel {
    const partitionDescription: string
    const availableRegions: seq<FreeSpaceRegion>
    var selectedRegion: Option<FreeSpaceRegion>
    var isMoving: bool
    var isComplete: bool
    var isCancelled: bool
    var progressStatus: string
    /** A cancellation source exists (`_cts` is not null). */
    var tokenLive: bool
    /** `Cancel` has been called on the live source. */
    var cancelRequested: bool

    /** A cancellation source exists exactly while a move runs, and only a live source can be cancelled. */
    ghost predicate Valid()
      reads this
    {
      tokenLive == isMoving && (cancelRequested ==> tokenLive)
    }

    constructor(partitionDescription: string, availableRegions: seq<FreeSpaceRegion>)
      ensures Valid()
      ensures this.partitionDescription == partitionDescription
      ensures this.availableRegions == availableRegions
      ensures selectedRegion == None && !isMoving && !isComplete && !isCancelled
      ensures progressStatus == ""
    {
      this.partitionDescription := partitionDescription;
      this.availableRegions := availableRegions;
      selectedRegion := None;
      isMoving := false;
      isComplete := false;
      isCancelled := false;
      progressStatus := "";
      tokenLive := false;
      cancelRequested := false;
    }

    /** The Move button: a region is chosen and no move has started; the configure view and Close show. */
    predicate CanMove()
      reads this
      ensures CanMove() ==> selectedRegion.Some? && ShowConfigure() && ShowClose() && !CanCancel()
    {
      selectedRegion.Some? && !isMoving && !isComplete && !isCancelled
    }

    /** The progress view shows exactly when there is a status message. */
    predicate ShowProgress()
      reads this
      ensures ShowProgress() <==> StatusMessage() != ""
    {
      isMoving || isComplete || isCancelled
    }

    /** The configure view shows exactly when the progress view does not. */
    predicate ShowConfigure()
      reads this
      ensures ShowConfigure() <==> !ShowProgress()
    {
      !ShowProgress()
    }

    /** Cancel is offered while a move runs that has not completed; progress shows, never completion. */
    predicate CanCancel()
      reads this
      ensures CanCancel() ==> ShowProgress() && StatusMessage() != CompletedMessage
    {
      isMoving && !isComplete
    }

    /** Close is offered whenever no move runs: never beside Cancel. */
    predicate ShowClose()
      reads this
      ensures ShowClose() ==> !CanCancel()
      ensures !ShowClose() ==> ShowProgress()
    {
      !isMoving
    }

    /** The status line: completion, then cancellation, then a running move; empty before a move. */
    function StatusMessage(): (m: string)
      reads this
      ensures m == CompletedMessage <==> isComplete
      ensures m == CancelledMessage <==> !isComplete && isCancelled
      ensures m == MovingMessage <==> !isComplete && !isCancelled && isMoving
      ensures m == "" <==> !isMoving && !isComplete && !isCancelled
    {
      if isComplete then CompletedMessage
      else if isCancelled then CancelledMessage
      else if isMoving then MovingMessage
      else ""
    }

    method SetSelectedRegion(region: Option<FreeSpaceRegion>)
      modifies this`selectedRegion
      ensures selectedRegion == region
    {
      selectedRegion := region;
    }

    /**
     * `ExecuteMoveAsync` up to the awaited call. With no region selected it
     * returns and changes nothing; otherwise it creates the cancellation
     * source, enters the moving state and passes the region's start offset.
     */
    method BeginMove() returns (destination: Option<int64>)
      requires Valid()
      modifies this
      ensures Valid()
      ensures old(selectedRegion).None? ==> destination == None && unchanged(this)
      ensures old(selectedRegion).Some? ==>
        destination == Some(old(selectedRegion).value.startOffsetBytes)
        && isMoving && tokenLive && !cancelRequested
        && progressStatus == StartingStatus
        && selectedRegion == old(selectedRegion)
        && isComplete == old(isComplete) && isCancelled == old(isCancelled)
    {
      if selectedRegion.None? {
        return None;
      }
      tokenLive := true;
      cancelRequested := false;
      isMoving := true;
      progressStatus := StartingStatus;
      destination := Some(selectedRegion.value.startOffsetBytes);
    }

    /** The progress callback: the operation's status text is shown as it arrives. */
    method ReportProgress(statusText: string)
      modifies this`progressStatus
      ensures progressStatus == statusText
    {
      progressStatus := statusText;
    }

    /** `ExecuteCancel`: cancels the live source, if there is one; otherwise nothing. */
    method Cancel()
      requires Valid()
      modifies this`cancelRequested
      ensures Valid()
      ensures cancelRequested == (old(cancelRequested) || tokenLive)
    {
      if tokenLive {
        cancelRequested := true;
      }
    }

    /**
     * `ExecuteMoveAsync` from the awaited call to the end: completion sets
     * `isComplete`, cancellation sets `isCancelled`, any other failure escapes
     * to the caller; in every case the moving state ends and the source is
     * disposed.
     */
    method EndMove(outcome: MoveOutcome) returns (escaped: Option<string>)
      requires Valid() && isMoving
      modifies this
      ensures Valid()
      ensures !isMoving && !tokenLive && !cancelRequested
      ensures selectedRegion == old(selectedRegion) && progressStatus == old(progressStatus)
      ensures outcome == Completed ==> isComplete && isCancelled == old(isCancelled) && escaped == None
      ensures outcome == Cancelled ==> isCancelled && isComplete == old(isComplete) && escaped == None
      ensures outcome.Faulted? ==>
        escaped == Some(outcome.message) && isComplete == old(isComplete) && isCancelled == old(isCancelled)
    {
      escaped := None;
      match outcome {
        case Completed => isComplete := true;
        case Cancelled => isCancelled := true;
        case Faulted(message) => escaped := Some(message);
      }
      isMoving := false;
      tokenLive := false;
      cancelRequested := false;
    }

    /**
     * The whole handler, with the awaited operation's outcome as a parameter
     * and `reported` the status texts its progress callback delivers, in
     * order, while the operation runs.
     */
    method ExecuteMove(reported: seq<string>, outcome: MoveOutcome) returns (destination: Option<int64>, escaped: Option<string>)
      requires Valid()
      modifies this
      ensures Valid()
      ensures old(selectedRegion).None? ==> destination == None && escaped == None && unchanged(this)
      ensures old(selectedRegion).Some? ==>
        destination == Some(old(selectedRegion).value.startOffsetBytes)
        && !isMoving && !tokenLive
        && progressStatus == (if reported == [] then StartingStatus else reported[|reported| - 1])
        && (outcome == Completed ==> isComplete && isCancelled == old(isCancelled) && !CanMove())
        && (outcome == Cancelled ==> isCancelled && isComplete == old(isComplete) && !CanMove())
        && (outcome.Faulted? ==>
              escaped == Some(outcome.message) && isComplete == old(isComplete) && isCancelled == old(isCancelled))
    {
      destination := BeginMove();
      if destination.None? {
        escaped := None;
        return;
      }
      for n := 0 to |reported|
        invariant Valid() && isMoving && tokenLive
        invariant selectedRegion == old(selectedRegion)
        invariant isComplete == old(isComplete) && isCancelled == old(isCancelled)
        invariant progressStatus == if n == 0 then StartingStatus else reported[n - 1]
      {
        ReportProgress(reported[n]);
      }
      escaped := EndMove(outcome);
    }
  }

  /** Once a move has finished, in either way, the dialog cannot start another. */
  lemma FinishedDialogCannotMove(vm: MovePartitionViewModel)
    requires vm.isComplete || vm.isCancelled
    ensures !vm.CanMove() && vm.ShowProgress()
    ensures vm.CanCancel() <==> vm.isMoving && !vm.isComplete
  {
  }
}
