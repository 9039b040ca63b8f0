/** The renderer's admission control: a counter of frames scheduled for
    display and a counter of bitmaps being set, each capped, driven by the
    arrival of frames, the UI dispatcher running a queued handler, and the
    completion of a bitmap update. Each of these steps runs to completion
    before the next. */
module Admission {
  import opened Negotiation
  import opened Dispatch

  /** A reference to an arrived frame: its video frame may be missing. */
  datatype FrameReference = FrameReference(videoMediaFrame: Option<VideoFrame>)

  /** What became of an arrived frame. */
  datatype Outcome =
    | Ignored        // no frame reference at all
    | Busy           // too many frames already scheduled: dropped
    | NotDisplayable // no conversion makes it displayable: dropped
    | Scheduled      // converted and handed to the UI dispatcher

  class FrameRenderer {
    /** m_numberOfTasksScheduled: frames converted and waiting for the UI. */
    var scheduled: int
    /** m_numberOfTasksRunning: bitmaps whose update has not completed. */
    var running: int
    /** The cap on scheduled frames. */
    const maxScheduled: nat
    /** The cap on running bitmap updates. */
    const maxRunning: nat
    /** The sensor whose frames are rendered. */
    var sensorName: string
    /** The handlers handed to the UI dispatcher and not yet run, each with
        the converted bitmap it carries. */
    var dispatchQueue: seq<Conversion>
    /** The bitmaps being set on the image source, not yet completed. */
    var settingBitmaps: seq<Conversion>
    /** The bitmap the image element shows. */
    var displayed: Option<Conversion>

    /** Each counter counts exactly the tasks it stands for and stays within
        its cap. */
    predicate Valid()
      reads this
      ensures Valid() ==> 0 <= scheduled <= maxScheduled && 0 <= running <= maxRunning
    {
      && 0 <= scheduled == |dispatchQueue| <= maxScheduled
      && 0 <= running == |settingBitmaps| <= maxRunning
    }

    constructor (maxScheduled: nat, maxRunning: nat, sensorName: string)
      ensures Valid()
      ensures this.maxScheduled == maxScheduled && this.maxRunning == maxRunning
      ensures this.sensorName == sensorName
      ensures scheduled == 0 && running == 0
      ensures dispatchQueue == [] && settingBitmaps == [] && displayed == None
    {
      this.maxScheduled := maxScheduled;
      this.maxRunning := maxRunning;
      this.sensorName := sensorName;
      scheduled := 0;
      running := 0;
      dispatchQueue := [];
      settingBitmaps := [];
      displayed := None;
    }

    /** Renames the sensor; later depth frames use its calibration. */
    method SetSensorName(name: string)
      modifies this
      ensures sensorName == name
      ensures scheduled == old(scheduled) && running == old(running)
      ensures dispatchQueue == old(dispatchQueue) && settingBitmaps == old(settingBitmaps)
      ensures displayed == old(displayed)
    {
      sensorName := name;
    }

    /** An arrived frame. A missing reference is ignored. Otherwise the
        scheduled counter is incremented, and when that takes it past its
        cap the frame is dropped and the increment undone. A frame no
        conversion applies to (`threw` says whether the conversion raised an
        exception) is dropped with the increment undone. Any other frame's
        converted bitmap is queued for the UI dispatcher and counted. */
    method ProcessFrame(frame: Option<FrameReference>, threw: bool) returns (outcome: Outcome)
      requires Valid()
      modifies this
      ensures Valid()
      ensures running == old(running) && settingBitmaps == old(settingBitmaps)
      ensures displayed == old(displayed) && sensorName == old(sensorName)
      ensures frame.None? ==> outcome == Ignored
      ensures outcome == Busy <==> frame.Some? && old(scheduled) >= maxScheduled
      ensures outcome == NotDisplayable <==>
                frame.Some? && old(scheduled) < maxScheduled
                && ConvertToDisplayableImage(frame.value.videoMediaFrame, sensorName, threw).None?
      ensures outcome == Scheduled <==>
                frame.Some? && old(scheduled) < maxScheduled
                && ConvertToDisplayableImage(frame.value.videoMediaFrame, sensorName, threw).Some?
      ensures outcome == Scheduled ==>
                && scheduled == old(scheduled) + 1
                && dispatchQueue ==
                     old(dispatchQueue) + [ConvertToDisplayableImage(frame.value.videoMediaFrame, sensorName, threw).value]
      ensures outcome != Scheduled ==> scheduled == old(scheduled) && dispatchQueue == old(dispatchQueue)
    {
      if frame.None? {
        return Ignored;
      }
      scheduled := scheduled + 1;
      if scheduled > maxScheduled {
        scheduled := scheduled - 1;
        return Busy;
      }
      var bitmap := ConvertToDisplayableImage(frame.value.videoMediaFrame, sensorName, threw);
      if bitmap.None? {
        scheduled := scheduled - 1;
        return NotDisplayable;
      }
      dispatchQueue := dispatchQueue + [bitmap.value];
      outcome := Scheduled;
    }

    /** The UI dispatcher runs the queued handler at position k. It
        decrements the scheduled counter, then increments the running
        counter; when that takes it past its cap the bitmap is discarded and
        the increment undone, otherwise the bitmap update starts and is
        counted. */
    method RunDispatchedHandler(k: nat) returns (started: bool)
      requires Valid()
      requires k < |dispatchQueue|
      modifies this
      ensures Valid()
      ensures scheduled == old(scheduled) - 1
      ensures dispatchQueue == old(dispatchQueue[..k] + dispatchQueue[k + 1..])
      ensures started <==> old(running) < maxRunning
      ensures started ==> running == old(running) + 1
                          && settingBitmaps == old(settingBitmaps) + [old(dispatchQueue[k])]
      ensures !started ==> running == old(running) && settingBitmaps == old(settingBitmaps)
      ensures displayed == old(displayed) && sensorName == old(sensorName)
    {
      var bitmap := dispatchQueue[k];
      dispatchQueue := dispatchQueue[..k] + dispatchQueue[k + 1..];
      scheduled := scheduled - 1;
      running := running + 1;
      if running > maxRunning {
        running := running - 1;
        return false;
      }
      settingBitmaps := settingBitmaps + [bitmap];
      started := true;
    }

    /** The update of the bitmap at position k completes: the image element
        shows it and the running counter is decremented. */
    method CompleteSetBitmap(k: nat)
      requires Valid()
      requires k < |settingBitmaps|
      modifies this
      ensures Valid()
      ensures running == old(running) - 1
      ensures settingBitmaps == old(settingBitmaps[..k] + settingBitmaps[k + 1..])
      ensures displayed == Some(old(settingBitmaps[k]))
      ensures scheduled == old(scheduled) && dispatchQueue == old(dispatchQueue)
      ensures sensorName == old(sensorName)
    {
      displayed := Some(settingBitmaps[k]);
      settingBitmaps := settingBitmaps[..k] + settingBitmaps[k + 1..];
      running := running - 1;
    }
  }
}
