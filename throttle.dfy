/** The drag-over throttle: at most one animation frame is pending, and
    the frame runs the latest drag-over job scheduled before it fires. */
module DragThrottle {
  import opened Strings

  /** A drag-over job: the row whose handler scheduled it and the pointer
      position copied from the event. */
  datatype Job = Job(row: string, clientX: int, clientY: int)

  /** `_dragFrame` (with the job its callback captured), `_dragQueue` and
      `_dragging`. */
  datatype State = State(frame: Option<Job>, queue: Option<Job>, dragging: bool)

  /** A job waits in the queue only while a frame is pending. */
  predicate Valid(s: State) {
    s.queue.Some? ==> s.frame.Some?
  }

  /** Scheduling a job: with a frame pending it replaces the queued job,
      otherwise a frame is requested that captures it. */
  function Scheduled(s: State, job: Job): (r: State)
    ensures Valid(s) ==> Valid(r)
    ensures r.frame.Some? && r.dragging == s.dragging
  {
    if s.frame.Some? then s.(queue := Some(job)) else s.(frame := Some(job))
  }

  /** The frame callback: clears the frame and the queue, and runs the
      queued job, or the captured one, unless the drag has ended. */
  function Fired(s: State): (r: (State, Option<Job>))
    requires s.frame.Some?
    ensures r.0 == State(None, None, s.dragging)
    ensures r.1.Some? <==> s.dragging
  {
    var next := State(None, None, s.dragging);
    if !s.dragging then (next, None)
    else (next, Some(if s.queue.Some? then s.queue.value else s.frame.value))
  }

  /** `cancelDragOverThrottle` */
  function Cancelled(s: State): State {
    s.(frame := None, queue := None)
  }

  /** Scheduling the jobs one after another. */
  function ScheduleAll(s: State, jobs: seq<Job>): State {
    if jobs == [] then s else Scheduled(ScheduleAll(s, jobs[..|jobs| - 1]), jobs[|jobs| - 1])
  }

  /** However many jobs are scheduled before a frame fires, and whatever
      was pending before, the frame runs only the last of them. */
  lemma {:induction false} LatestJobRuns(s: State, jobs: seq<Job>)
    requires Valid(s) && jobs != []
    ensures ScheduleAll(s, jobs).frame.Some?
    ensures Valid(ScheduleAll(s, jobs))
    ensures Fired(ScheduleAll(s, jobs)).1 == if s.dragging then Some(jobs[|jobs| - 1]) else None
  {
    var init := jobs[..|jobs| - 1];
    if init != [] {
      LatestJobRuns(s, init);
      assert ScheduleAll(s, init).dragging == s.dragging;
    } else {
      assert ScheduleAll(s, init) == s;
    }
  }

  /** A pending frame runs nothing once the drag has ended. */
  lemma EndedDragRunsNothing(s: State)
    requires s.frame.Some? && !s.dragging
    ensures Fired(s).1 == None && Fired(s).0.queue == None
  {
  }

  /** The throttle fields of the view. */
  class Throttle {
    var frame: Option<Job>
    var queue: Option<Job>
    var dragging: bool

    function Current(): State
      reads this
    {
      State(frame, queue, dragging)
    }

    constructor()
      ensures Current() == State(None, None, false)
    {
      frame, queue, dragging := None, None, false;
    }

    /** The wrapper `scheduleDragOver` returns, called on each drag-over event. */
    method Schedule(job: Job)
      modifies this
      ensures Current() == Scheduled(old(Current()), job)
    {
      if frame.Some? {
        queue := Some(job);
        return;
      }
      frame := Some(job);
    }

    /** The animation-frame callback; `run` is the job whose handler runs. */
    method Fire() returns (run: Option<Job>)
      requires frame.Some?
      modifies this
      ensures (Current(), run) == Fired(old(Current()))
    {
      var captured := frame.value;
      frame := None;
      if !dragging {
        queue := None;
        return None;
      }
      run := if queue.Some? then queue else Some(captured);
      queue := None;
    }

    /** `cancelDragOverThrottle` */
    method Cancel()
      modifies this
      ensures Current() == Cancelled(old(Current()))
    {
      frame := None;
      queue := None;
    }

    /** `dragstart`: the drag is marked active; pending work is untouched. */
    method StartDrag()
      modifies this
      ensures Current() == old(Current()).(dragging := true)
    {
      dragging := true;
    }

    /** `dragend` and every drop: the drag ends and pending work is dropped. */
    method EndDrag()
      modifies this
      ensures Current() == State(None, None, false)
    {
      dragging := false;
      Cancel();
    }
  }
}
