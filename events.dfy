/** The dispatch of obsstudio_srbeep_frontend_event_callback in SRBeep.cpp:
    each handled front-end event starts play_sound on one asset file, in the
    std::thread slot reserved for it. */
module Events {
  import opened Wrappers

  /** The OBS front-end events the callback tests for, and every other one. */
  datatype FrontendEvent =
    | StreamingStarted
    | RecordingStarted
    | ReplayBufferStarted
    | RecordingPaused
    | StreamingStopped
    | RecordingStopped
    | ReplayBufferStopped
    | RecordingUnpaused
    | ReplayBufferSaved
    | Other(code: int)

  /** The nine global std::thread objects. */
  datatype ThreadSlot = StStt | StSto | RcStt | RcSto | BfStt | BfSto | BfSav | PsStt | PsSto

  /** The asset file names handed to play_sound. */
  const StreamStartSound: string := "/stream_start_sound.mp3"
  const RecordStartSound: string := "/record_start_sound.mp3"
  const BufferStartSound: string := "/buffer_start_sound.mp3"
  const PauseStartSound: string := "/pause_start_sound.mp3"
  const StreamStopSound: string := "/stream_stop_sound.mp3"
  const RecordStopSound: string := "/record_stop_sound.mp3"
  const BufferStopSound: string := "/buffer_stop_sound.mp3"
  const PauseStopSound: string := "/pause_stop_sound.mp3"
  const BufferSaveSound: string := "/buffer_save_sound.mp3"

  /** A playback started by the callback: the slot the new thread is stored
      in and the file name handed to play_sound. */
  datatype Playback = Playback(slot: ThreadSlot, fileName: string)

  /** The if/else chain of the callback, one branch per handled event; None
      when no branch is taken. */
  function Dispatch(e: FrontendEvent): (r: Option<Playback>)
    ensures r.None? <==> e.Other?
    ensures r.Some? ==> r.value.slot != PsSto
    ensures r.Some? ==> |r.value.fileName| > 0 && r.value.fileName[0] == '/'
  {
    match e
    case StreamingStarted => Some(Playback(StStt, StreamStartSound))
    case RecordingStarted => Some(Playback(RcStt, RecordStartSound))
    case ReplayBufferStarted => Some(Playback(BfStt, BufferStartSound))
    case RecordingPaused => Some(Playback(PsStt, PauseStartSound))
    case StreamingStopped => Some(Playback(StSto, StreamStopSound))
    case RecordingStopped => Some(Playback(RcSto, RecordStopSound))
    case ReplayBufferStopped => Some(Playback(BfSto, BufferStopSound))
    case RecordingUnpaused => Some(Playback(PsStt, PauseStopSound))
    case ReplayBufferSaved => Some(Playback(BfSav, BufferSaveSound))
    case Other(_) => None
  }

  /** The event whose sound a file is, read back from the file name. */
  function EventOfFile(fileName: string): (e: Option<FrontendEvent>)
    ensures e.Some? ==> !e.value.Other?
  {
    if fileName == StreamStartSound then Some(StreamingStarted)
    else if fileName == RecordStartSound then Some(RecordingStarted)
    else if fileName == BufferStartSound then Some(ReplayBufferStarted)
    else if fileName == PauseStartSound then Some(RecordingPaused)
    else if fileName == StreamStopSound then Some(StreamingStopped)
    else if fileName == RecordStopSound then Some(RecordingStopped)
    else if fileName == BufferStopSound then Some(ReplayBufferStopped)
    else if fileName == PauseStopSound then Some(RecordingUnpaused)
    else if fileName == BufferSaveSound then Some(ReplayBufferSaved)
    else None
  }

  /** Every handled event plays its own file: the file name tells the event. */
  lemma DispatchFileIdentifiesEvent(e: FrontendEvent)
    requires !e.Other?
    ensures Dispatch(e).Some? && EventOfFile(Dispatch(e).value.fileName) == Some(e)
  {
    match e
    case StreamingStarted =>
    case RecordingStarted =>
    case ReplayBufferStarted =>
    case RecordingPaused =>
    case StreamingStopped =>
    case RecordingStopped =>
    case ReplayBufferStopped =>
    case RecordingUnpaused =>
    case ReplayBufferSaved =>
  }

  /** Two handled events share a thread slot only when they are the pause
      and the unpause of a recording, which both use ps_stt_Thread. */
  lemma SharedSlotIsPause(e1: FrontendEvent, e2: FrontendEvent)
    requires Dispatch(e1).Some? && Dispatch(e2).Some? && e1 != e2
    ensures Dispatch(e1).value.slot == Dispatch(e2).value.slot <==>
      ((e1 == RecordingPaused && e2 == RecordingUnpaused) || (e1 == RecordingUnpaused && e2 == RecordingPaused))
  {
  }
}
