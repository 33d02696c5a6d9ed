/** The local WebSocket listener that learns which design web application the browser
    shows. The socket server, JSON decoding and the event loop are outside the model: a
    connection is the sequence of frames it delivers, already decoded. */
module WebListener {
  import opened Types

  const DEFAULT_PORT: int := 6789
  const CONTEXT_CHANGE: string := "context_change"
  /** The extension's spelling of "no design application". */
  const NULL_APP: string := "null"

  /** A decoded JSON object: its "event" and "app" entries, when present and strings. */
  datatype Message = Message(event: Option<string>, app: Option<string>)

  /** One frame of a connection: an object received at time `at` (ms), or text that does
      not decode to an object, which ends the connection's handler. */
  datatype Frame = Object(msg: Message, at: int) | Malformed

  datatype ListenerState = ListenerState(running: bool, currentWebApp: Option<string>, lastUpdateTime: int)

  function NewListener(): ListenerState
  {
    ListenerState(false, None, 0)
  }

  /** Starting: a running listener is left alone; otherwise it is marked running and the
      server thread is spawned. */
  function Start(st: ListenerState): (r: (ListenerState, bool))
    ensures r.0.running
    ensures r.1 <==> !st.running
    ensures r.0.currentWebApp == st.currentWebApp && r.0.lastUpdateTime == st.lastUpdateTime
  {
    if st.running then (st, false) else (st.(running := true), true)
  }

  /** Stopping only clears the flag; the server keeps serving. */
  function Stop(st: ListenerState): (r: ListenerState)
    ensures !r.running && r.currentWebApp == st.currentWebApp && r.lastUpdateTime == st.lastUpdateTime
  {
    st.(running := false)
  }

  /** The application a context-change message announces: "null" and a missing app both
      mean none. */
  function AnnouncedApp(m: Message): (a: Option<string>)
    ensures a.Some? <==> m.app.Some? && m.app.value != NULL_APP
    ensures a.Some? ==> a == m.app
  {
    if m.app == Some(NULL_APP) then None else m.app
  }

  /** One decoded message: a context change records the announced application and the
      time; any other message changes nothing. */
  function HandleMessage(st: ListenerState, m: Message, at: int): (st': ListenerState)
    ensures m.event == Some(CONTEXT_CHANGE) ==> st'.currentWebApp == AnnouncedApp(m) && st'.lastUpdateTime == at
    ensures m.event != Some(CONTEXT_CHANGE) ==> st' == st
    ensures st'.running == st.running
    ensures st.currentWebApp != Some(NULL_APP) ==> st'.currentWebApp != Some(NULL_APP)
  {
    if m.event == Some(CONTEXT_CHANGE) then st.(currentWebApp := AnnouncedApp(m), lastUpdateTime := at) else st
  }

  /** The frames a handler processes: those before the first malformed one. */
  function Processed(frames: seq<Frame>): (ms: seq<Frame>)
    ensures |ms| <= |frames| && ms == frames[..|ms|]
    ensures forall i :: 0 <= i < |ms| ==> ms[i].Object?
    ensures |ms| < |frames| ==> frames[|ms|].Malformed?
  {
    if |frames| == 0 || frames[0].Malformed? then []
    else [frames[0]] + Processed(frames[1..])
  }

  /** Handling a run of decoded frames in order. */
  function Consume(st: ListenerState, frames: seq<Frame>): (st': ListenerState)
    requires forall i :: 0 <= i < |frames| ==> frames[i].Object?
    ensures st'.running == st.running
    decreases |frames|
  {
    if |frames| == 0 then st
    else Consume(HandleMessage(st, frames[0].msg, frames[0].at), frames[1..])
  }

  /** The last context-change frame of a run, found from the end. */
  function LastChange(frames: seq<Frame>): (r: Option<Frame>)
    requires forall i :: 0 <= i < |frames| ==> frames[i].Object?
    ensures r.Some? ==> r.value in frames && r.value.msg.event == Some(CONTEXT_CHANGE)
    ensures r.None? ==> forall i :: 0 <= i < |frames| ==> frames[i].msg.event != Some(CONTEXT_CHANGE)
  {
    if |frames| == 0 then None
    else if frames[|frames| - 1].msg.event == Some(CONTEXT_CHANGE) then Some(frames[|frames| - 1])
    else
      var r := LastChange(frames[..|frames| - 1]);
      assert forall i :: 0 <= i < |frames| - 1 ==> frames[..|frames| - 1][i] == frames[i];
      r
  }

  lemma {:induction false} ConsumeAppend(st: ListenerState, a: seq<Frame>, b: seq<Frame>)
    requires forall i :: 0 <= i < |a| ==> a[i].Object?
    requires forall i :: 0 <= i < |b| ==> b[i].Object?
    ensures forall i :: 0 <= i < |a + b| ==> (a + b)[i].Object?
    ensures Consume(st, a + b) == Consume(Consume(st, a), b)
    decreases |a|
  {
    if |a| > 0 {
      assert (a + b)[1..] == a[1..] + b;
      ConsumeAppend(HandleMessage(st, a[0].msg, a[0].at), a[1..], b);
    } else {
      assert a + b == b;
    }
  }

  /** Most recent wins: after a run of messages the listener holds what the last context
      change announced, at that message's time, or what it held before when there was
      none. */
  lemma {:induction false} ConsumeLatest(st: ListenerState, frames: seq<Frame>)
    requires forall i :: 0 <= i < |frames| ==> frames[i].Object?
    ensures LastChange(frames).None? ==> Consume(st, frames) == st
    ensures LastChange(frames).Some? ==>
              && Consume(st, frames).currentWebApp == AnnouncedApp(LastChange(frames).value.msg)
              && Consume(st, frames).lastUpdateTime == LastChange(frames).value.at
    decreases |frames|
  {
    if |frames| > 0 {
      var init := frames[..|frames| - 1];
      var last := frames[|frames| - 1];
      assert frames == init + [last];
      ConsumeAppend(st, init, [last]);
      ConsumeLatest(st, init);
      assert Consume(Consume(st, init), [last]) == HandleMessage(Consume(st, init), last.msg, last.at);
    }
  }

  /** One connection from open to close: the processed frames are handled in order, and
      however the connection ends (closed, or a malformed frame) the application is
      cleared. */
  function HandleConnection(st: ListenerState, frames: seq<Frame>): (st': ListenerState)
    ensures st'.currentWebApp == None
    ensures st'.running == st.running
    ensures st'.lastUpdateTime == Consume(st, Processed(frames)).lastUpdateTime
  {
    Consume(st, Processed(frames)).(currentWebApp := None)
  }

  /** The application last announced over a live connection, with no staleness check. */
  function GetActiveWebApp(st: ListenerState): (app: Option<string>)
    ensures app == st.currentWebApp
  {
    st.currentWebApp
  }

  /** There is no timeout: however long ago the last update came, and whether or not the
      listener is marked running, the answer is the same. */
  lemma ActiveAppIgnoresAge(st: ListenerState, updatedAt: int, running: bool)
    ensures GetActiveWebApp(st.(lastUpdateTime := updatedAt, running := running)) == GetActiveWebApp(st)
  {
  }

  /** What the desktop side sees: during a connection, the application of the most recent
      context change (never the literal "null"); after the connection ends, none. */
  lemma ActiveAppDuringAndAfter(st: ListenerState, frames: seq<Frame>)
    requires forall i :: 0 <= i < |frames| ==> frames[i].Object?
    requires LastChange(frames).Some?
    ensures GetActiveWebApp(Consume(st, frames)) == AnnouncedApp(LastChange(frames).value.msg)
    ensures GetActiveWebApp(Consume(st, frames)) != Some(NULL_APP)
    ensures GetActiveWebApp(HandleConnection(st, frames)) == None
  {
    ConsumeLatest(st, frames);
  }
}
