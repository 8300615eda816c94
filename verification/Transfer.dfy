/** The transfer of files: client, server and byte stream as a state machine whose steps
    may interleave and split the stream in any way. Bytes are characters below 256. */
module Transfer {
  import opened Text
  import opened FileIndex
  import opened FileListing

  const MESSAGE := "File does not exist."
  const EXIT := "exit"
  const SEND_SIZE := 3072
  const RECV_SIZE := 4096

  /** What stays fixed in a session: the upload directory, the server's file list, and the
      sizes the client has stored for the listed names. */
  datatype World = World(dir: map<string, string>, listing: string, sizeOf: string -> nat)

  /** Where the client is: at its prompt, before the first recv, or in the inner loop. */
  datatype Phase = Idle | Waiting(name: string) | Receiving(name: string, total: nat)

  /** `request` is a name on its way to the server, at most one at a time, `unread` what the
      server has not yet read from the open file, `inflight` what it has sent and the client
      not received. */
  datatype State = State(
    pending: seq<string>, phase: Phase, request: Option<string>,
    unread: string, inflight: string, files: map<string, string>)

  datatype Step = Ask | Accept | Send | Recv(k: nat)

  predicate Enabled(s: State, a: Step) {
    match a
    case Ask => s.phase == Idle && s.request.None? && s.pending != []
    case Accept => s.request.Some? && s.unread == []
    case Send => s.unread != []
    case Recv(k) => s.phase != Idle && 1 <= k <= RECV_SIZE && k <= |s.inflight|
  }

  function Min(a: nat, b: nat): nat {
    if a < b then a else b
  }

  /** The client writes a chunk; the file is finished when the counted bytes equal the size. */
  function Written(w: World, s: State, name: string, total: nat, k: nat, content: string): State
    requires k <= |s.inflight|
  {
    State(s.pending, if w.sizeOf(name) == total then Idle else Receiving(name, total), s.request,
          s.unread, s.inflight[k..], s.files[name := content])
  }

  function Do(w: World, s: State, a: Step): State
    requires Enabled(s, a)
  {
    match a
    case Ask =>
      if s.pending[0] == EXIT then State([], Idle, s.request, s.unread, s.inflight, s.files)
      else State(s.pending[1..], Waiting(s.pending[0]), Some(s.pending[0]), s.unread, s.inflight, s.files)
    case Accept =>
      var name := s.request.value;
      if !Contains(w.listing, name) then State(s.pending, s.phase, None, [], s.inflight + MESSAGE, s.files)
      else State(s.pending, s.phase, None, if name in w.dir then w.dir[name] else [], s.inflight, s.files)
    case Send =>
      var n := Min(SEND_SIZE, |s.unread|);
      State(s.pending, s.phase, s.request, s.unread[n..], s.inflight + s.unread[..n], s.files)
    case Recv(k) =>
      var chunk := s.inflight[..k];
      match s.phase
      case Waiting(name) =>
        if CStr(chunk) == MESSAGE then State(s.pending, Idle, s.request, s.unread, s.inflight[k..], s.files)
        else Written(w, s, name, k, k, chunk)
      case Receiving(name, total) =>
        Written(w, s, name, total + k, k, (if name in s.files then s.files[name] else []) + chunk)
  }

  // ---------------------------------------------------- the single steps

  /** A name that stands nowhere in the list: no file is opened, the 20 bytes of the refusal
      are sent, and nothing else changes. */
  lemma {:induction false} UnlistedIsRefused(w: World, s: State)
    requires Enabled(s, Accept) && forall i: nat :: !StandsAt(w.listing, s.request.value, i)
    ensures Do(w, s, Accept) == s.(request := None, unread := [], inflight := s.inflight + "File does not exist.")
    ensures |"File does not exist."| == 20
  {
    ContainsExactlyIf(w.listing, s.request.value);
  }

  /** A name that stands in the list: the file of that name, if there is one, is to be sent,
      and nothing else changes. */
  lemma {:induction false} ListedIsOpened(w: World, s: State, i: nat)
    requires Enabled(s, Accept) && StandsAt(w.listing, s.request.value, i)
    ensures var name := s.request.value;
            Do(w, s, Accept) == s.(request := None, unread := if name in w.dir then w.dir[name] else [])
  {
    ContainsExactlyIf(w.listing, s.request.value);
  }

  /** The word that ends the session is not sent; any other name is, and waited for. */
  lemma AskIs(w: World, s: State)
    requires Enabled(s, Ask)
    ensures s.pending[0] == "exit" ==> Do(w, s, Ask) == s.(pending := [])
    ensures s.pending[0] != "exit" ==>
              Do(w, s, Ask) ==
              s.(pending := s.pending[1..], phase := Waiting(s.pending[0]), request := Some(s.pending[0]))
  {
  }

  /** A send moves at most 3072 bytes, and fewer only at the end of the file. */
  lemma SendIs(w: World, s: State, n: nat)
    requires Enabled(s, Send) && n == if |s.unread| < 3072 then |s.unread| else 3072
    ensures Do(w, s, Send) == s.(unread := s.unread[n..], inflight := s.inflight + s.unread[..n])
  {
  }

  /** A recv takes 1 to 4096 bytes. The first one is the refusal or the beginning of the
      file, later ones are appended; the file is finished at the stored size and only there. */
  lemma RecvIs(w: World, s: State, k: nat, chunk: string)
    requires Enabled(s, Recv(k)) && chunk == s.inflight[..k]
    ensures 1 <= k <= 4096 && s.phase != Idle
    ensures var left := s.inflight[k..];
            match s.phase
            case Waiting(name) =>
              if CStr(chunk) == "File does not exist." then Do(w, s, Recv(k)) == s.(phase := Idle, inflight := left)
              else Do(w, s, Recv(k)) ==
                   s.(phase := if k == w.sizeOf(name) then Idle else Receiving(name, k),
                      inflight := left, files := s.files[name := chunk])
            case Receiving(name, total) =>
              name in s.files ==>
                Do(w, s, Recv(k)) ==
                s.(phase := if total + k == w.sizeOf(name) then Idle else Receiving(name, total + k),
                   inflight := left, files := s.files[name := s.files[name] + chunk])
            case Idle => true
  {
  }

  /** When a step can be taken: one request at a time, one file at a time. */
  lemma EnabledIs(s: State, k: nat)
    ensures Enabled(s, Ask) <==> s.phase == Idle && s.request == None && s.pending != []
    ensures Enabled(s, Accept) <==> s.request != None && s.unread == []
    ensures Enabled(s, Send) <==> s.unread != []
    ensures Enabled(s, Recv(k)) <==> s.phase != Idle && 1 <= k <= 4096 && k <= |s.inflight|
  {
  }

  function Start(requests: seq<string>): State {
    State(requests, Idle, None, [], [], map[])
  }

  /** The state after a schedule, or None if one of its steps is not possible. */
  function RunsTo(w: World, s: State, steps: seq<Step>): Option<State>
    decreases |steps|
  {
    if steps == [] then Some(s)
    else if Enabled(s, steps[0]) then RunsTo(w, Do(w, s, steps[0]), steps[1..])
    else None
  }

  predicate Finished(s: State) {
    s.phase == Idle && s.pending == []
  }

  ghost predicate Stuck(s: State) {
    forall a :: !Enabled(s, a)
  }

  predicate Complete(w: World, s: State, name: string) {
    name in w.dir && name in s.files && s.files[name] == w.dir[name]
  }

  /** A request the transfer is meant for: a listed file of the advertised size, not empty,
      whose bytes do not start with the server's message, and not the word that ends a session. */
  predicate Deliverable(w: World, name: string) {
    && name != EXIT && name in w.dir && Contains(w.listing, name)
    && w.sizeOf(name) == |w.dir[name]|
    && w.dir[name] != [] && !IsPrefix(MESSAGE, w.dir[name])
  }

  predicate AllDeliverable(w: World, requests: seq<string>) {
    forall i :: 0 <= i < |requests| ==> Deliverable(w, requests[i])
  }

  // ----------------------------------------------------------- invariant

  /** The requests up to `n` are on disk, byte for byte; `except` may be being rewritten. */
  predicate OnDisk(w: World, s: State, requests: seq<string>, n: nat, except: Option<string>)
    requires n <= |requests|
  {
    forall i :: 0 <= i < n && Some(requests[i]) != except ==> Complete(w, s, requests[i])
  }

  /** Bytes written, bytes in flight and bytes unread always make up the file. */
  predicate Conserved(w: World, s: State) {
    match s.phase
    case Idle => s.request.None? && s.unread == [] && s.inflight == []
    case Waiting(name) =>
      && name in w.dir
      && (if s.request.Some? then s.request.value == name && s.unread == [] && s.inflight == []
          else s.inflight + s.unread == w.dir[name])
    case Receiving(name, total) =>
      && name in w.dir && name in s.files && s.request.None?
      && |s.files[name]| == total < |w.dir[name]|
      && s.files[name] + s.inflight + s.unread == w.dir[name]
  }

  function Current(s: State): Option<string> {
    match s.phase
    case Idle => None
    case Waiting(name) => Some(name)
    case Receiving(name, _) => Some(name)
  }

  /** The client has asked for the first `asked` requests; the last of them may be under way. */
  predicate AskedFor(w: World, s: State, requests: seq<string>, asked: nat)
    requires asked <= |requests|
  {
    && s.pending == requests[asked..]
    && OnDisk(w, s, requests, asked, Current(s))
    && (Current(s).Some? ==> asked > 0 && requests[asked - 1] == Current(s).value)
  }

  predicate Inv(w: World, s: State, requests: seq<string>) {
    && |s.pending| <= |requests|
    && AskedFor(w, s, requests, |requests| - |s.pending|)
    && Conserved(w, s)
  }

  lemma AskKeepsInv(w: World, s: State, requests: seq<string>)
    requires AllDeliverable(w, requests) && Inv(w, s, requests) && Enabled(s, Ask)
    ensures Inv(w, Do(w, s, Ask), requests)
  {
    var asked := |requests| - |s.pending|;
    assert s.pending[0] == requests[asked] && s.pending[1..] == requests[asked + 1..];
  }

  lemma AcceptKeepsInv(w: World, s: State, requests: seq<string>)
    requires AllDeliverable(w, requests) && Inv(w, s, requests) && Enabled(s, Accept)
    ensures Inv(w, Do(w, s, Accept), requests)
  {
    var name := s.request.value;
    assert s.phase == Waiting(name);
    assert Deliverable(w, name);
    assert [] + w.dir[name] == w.dir[name];
  }

  lemma SendKeepsInv(w: World, s: State, requests: seq<string>)
    requires Inv(w, s, requests) && Enabled(s, Send)
    ensures Inv(w, Do(w, s, Send), requests)
  {
    var n := Min(SEND_SIZE, |s.unread|);
    assert s.inflight + s.unread[..n] + s.unread[n..] == s.inflight + s.unread;
    if s.phase.Receiving? {
      var f := s.files[s.phase.name];
      assert f + (s.inflight + s.unread[..n]) + s.unread[n..] == f + s.inflight + s.unread;
    }
  }

  lemma MessageChunk(content: string, chunk: string)
    requires IsPrefix(chunk, content)
    ensures CStr(chunk) == MESSAGE ==> IsPrefix(MESSAGE, content)
  {
    if CStr(chunk) == MESSAGE {
      assert content[..|MESSAGE|] == chunk[..|MESSAGE|];
    }
  }

  /** The file after a chunk: conserved, and finished exactly when nothing is left. */
  lemma WrittenKeepsInv(w: World, s: State, requests: seq<string>, name: string, had: string, k: nat)
    requires AllDeliverable(w, requests) && Inv(w, s, requests)
    requires Current(s) == Some(name) && s.request.None?
    requires 1 <= k <= |s.inflight| && had + s.inflight + s.unread == w.dir[name]
    ensures Inv(w, Written(w, s, name, |had| + k, k, had + s.inflight[..k]), requests)
  {
    var asked := |requests| - |s.pending|;
    assert Deliverable(w, requests[asked - 1]);
    var t := Written(w, s, name, |had| + k, k, had + s.inflight[..k]);
    assert had + s.inflight[..k] + s.inflight[k..] + s.unread == had + s.inflight + s.unread;
    if t.phase == Idle {
      assert t.files[name] == w.dir[name];
    }
  }

  /** The first chunk of such a file is never taken for the message. */
  lemma FirstChunk(inflight: string, unread: string, k: nat)
    requires k <= |inflight| && !IsPrefix(MESSAGE, inflight + unread)
    ensures CStr(inflight[..k]) != MESSAGE
  {
    assert (inflight + unread)[..k] == inflight[..k];
    MessageChunk(inflight + unread, inflight[..k]);
  }

  lemma FirstWritten(w: World, s: State, k: nat)
    requires Enabled(s, Recv(k)) && s.phase.Waiting? && CStr(s.inflight[..k]) != MESSAGE
    ensures Do(w, s, Recv(k)) == Written(w, s, s.phase.name, k, k, [] + s.inflight[..k])
  {
    assert [] + s.inflight[..k] == s.inflight[..k];
  }

  lemma StreamOfCurrent(w: World, s: State, requests: seq<string>)
    requires AllDeliverable(w, requests) && Inv(w, s, requests) && s.phase.Waiting? && s.request.None?
    ensures s.phase.name in w.dir && s.inflight + s.unread == w.dir[s.phase.name]
    ensures !IsPrefix(MESSAGE, s.inflight + s.unread)
  {
    assert Deliverable(w, requests[|requests| - |s.pending| - 1]);
  }

  lemma {:induction false} FirstRecvWrites(w: World, s: State, requests: seq<string>, k: nat, name: string)
    requires AllDeliverable(w, requests) && Inv(w, s, requests) && Enabled(s, Recv(k)) && s.phase == Waiting(name)
    ensures Do(w, s, Recv(k)) == Written(w, s, name, k, k, [] + s.inflight[..k])
    ensures name in w.dir && [] + s.inflight + s.unread == w.dir[name]
  {
    StreamOfCurrent(w, s, requests);
    FirstChunk(s.inflight, s.unread, k);
    FirstWritten(w, s, k);
    assert [] + s.inflight == s.inflight;
  }

  lemma {:induction false} FirstRecvKeepsInv(w: World, s: State, requests: seq<string>, k: nat)
    requires AllDeliverable(w, requests) && Inv(w, s, requests) && Enabled(s, Recv(k)) && s.phase.Waiting?
    ensures Inv(w, Do(w, s, Recv(k)), requests)
  {
    FirstRecvWrites(w, s, requests, k, s.phase.name);
    WrittenKeepsInv(w, s, requests, s.phase.name, [], k);
  }

  lemma RecvKeepsInv(w: World, s: State, requests: seq<string>, k: nat)
    requires AllDeliverable(w, requests) && Inv(w, s, requests) && Enabled(s, Recv(k))
    ensures Inv(w, Do(w, s, Recv(k)), requests)
  {
    if s.phase.Waiting? {
      FirstRecvKeepsInv(w, s, requests, k);
    } else {
      WrittenKeepsInv(w, s, requests, s.phase.name, s.files[s.phase.name], k);
    }
  }

  lemma StepKeepsInv(w: World, s: State, requests: seq<string>, a: Step)
    requires AllDeliverable(w, requests) && Inv(w, s, requests) && Enabled(s, a)
    ensures Inv(w, Do(w, s, a), requests)
  {
    match a {
      case Ask => AskKeepsInv(w, s, requests);
      case Accept => AcceptKeepsInv(w, s, requests);
      case Send => SendKeepsInv(w, s, requests);
      case Recv(k) => RecvKeepsInv(w, s, requests, k);
    }
  }

  // ------------------------------------------------- progress and an end

  function Size(w: World, name: string): nat {
    if name in w.dir then |w.dir[name]| else 0
  }

  /** An upper bound on the steps that requests can still take. */
  function Budget(w: World, names: seq<string>): nat {
    if names == [] then 0 else 22 + 2 * Size(w, names[0]) + Budget(w, names[1..])
  }

  function StepsLeft(w: World, s: State): nat {
    Budget(w, s.pending) + (if s.request.Some? then 21 + 2 * Size(w, s.request.value) else 0)
    + 2 * |s.unread| + |s.inflight|
  }

  lemma RecvTakes(w: World, s: State, k: nat)
    requires Enabled(s, Recv(k))
    ensures var t := Do(w, s, Recv(k));
            t.inflight == s.inflight[k..] && t.pending == s.pending && t.request == s.request && t.unread == s.unread
  {
  }

  lemma MessageSize()
    ensures |MESSAGE| == 20
  {
  }

  lemma AcceptAnswers(w: World, s: State)
    requires Enabled(s, Accept)
    ensures var t, name := Do(w, s, Accept), s.request.value;
            && t.pending == s.pending && t.request.None?
            && (|| (t.unread == [] && |t.inflight| == |s.inflight| + 20)
                || (t.inflight == s.inflight && |t.unread| == Size(w, name)))
  {
    MessageSize();
  }

  /** Every step of every session, of whatever requests, brings it nearer to its end. */
  lemma StepIsProgress(w: World, s: State, a: Step)
    requires Enabled(s, a)
    ensures StepsLeft(w, Do(w, s, a)) < StepsLeft(w, s)
  {
    match a {
      case Ask =>
      case Accept => AcceptAnswers(w, s);
      case Send =>
      case Recv(k) => RecvTakes(w, s, k);
    }
  }

  /** Nobody waits for ever: unless the session is finished, some step is possible. */
  lemma NeverStuck(w: World, s: State, requests: seq<string>)
    requires AllDeliverable(w, requests) && Inv(w, s, requests) && !Finished(s)
    ensures !Stuck(s)
  {
    if s.phase == Idle {
      assert Enabled(s, Ask);
    } else if s.request.Some? {
      assert Enabled(s, Accept);
    } else if s.unread != [] {
      assert Enabled(s, Send);
    } else {
      var name := Current(s).value;
      assert Deliverable(w, name);
      assert s.inflight != [];
      assert Enabled(s, Recv(1));
    }
  }

  lemma {:induction false} RunKeepsInv(w: World, s: State, requests: seq<string>, steps: seq<Step>)
    requires AllDeliverable(w, requests) && Inv(w, s, requests) && RunsTo(w, s, steps).Some?
    ensures Inv(w, RunsTo(w, s, steps).value, requests)
    ensures |steps| + StepsLeft(w, RunsTo(w, s, steps).value) <= StepsLeft(w, s)
    decreases |steps|
  {
    if steps != [] {
      StepKeepsInv(w, s, requests, steps[0]);
      StepIsProgress(w, s, steps[0]);
      RunKeepsInv(w, Do(w, s, steps[0]), requests, steps[1..]);
    }
  }

  /** Exact transfer under any fragmentation: for every session of deliverable requests
      and every schedule, the bytes are conserved at each point, the number of steps is
      bounded, the session is stuck only when it is finished, and then every requested
      file has been written exactly and nothing is left in the stream. */
  lemma {:induction false} ExactTransfer(w: World, requests: seq<string>, steps: seq<Step>)
    requires AllDeliverable(w, requests) && RunsTo(w, Start(requests), steps).Some?
    ensures var s := RunsTo(w, Start(requests), steps).value;
            && Conserved(w, s)
            && |steps| <= Budget(w, requests)
            && (Stuck(s) <==> Finished(s))
            && (Finished(s) ==>
                  && s.inflight == [] && s.unread == [] && s.request.None?
                  && forall i :: 0 <= i < |requests| ==> Complete(w, s, requests[i]))
  {
    var start := Start(requests);
    assert requests[0..] == requests;
    RunKeepsInv(w, start, requests, steps);
    var s := RunsTo(w, start, steps).value;
    if Finished(s) {
      assert forall k :: !Enabled(s, Recv(k));
      assert Stuck(s);
    } else {
      NeverStuck(w, s, requests);
    }
  }

  // ------------------------------------------- exactly when it is reliable

  /** Whatever the schedule: the session stops only when it is finished, and a finished
      session has delivered every file. */
  ghost predicate Reliable(w: World, requests: seq<string>) {
    forall steps :: RunsTo(w, Start(requests), steps).Some? ==>
      var s := RunsTo(w, Start(requests), steps).value;
      && (Stuck(s) ==> Finished(s))
      && (Finished(s) ==> forall i :: 0 <= i < |requests| ==> Complete(w, s, requests[i]))
  }

  /** The session has stopped too early, or a requested file is not what it should be. */
  ghost predicate Bad(w: World, s: State, requests: seq<string>) {
    if Finished(s) then exists i :: 0 <= i < |requests| && !Complete(w, s, requests[i]) else Stuck(s)
  }

  /** Some schedule from here ends badly. */
  ghost predicate Fails(w: World, s: State, requests: seq<string>) {
    exists steps :: RunsTo(w, s, steps).Some? && Bad(w, RunsTo(w, s, steps).value, requests)
  }

  lemma FailsNow(w: World, s: State, requests: seq<string>)
    requires Bad(w, s, requests)
    ensures Fails(w, s, requests)
  {
    assert RunsTo(w, s, []) == Some(s);
  }

  lemma FailsLater(w: World, s: State, a: Step, requests: seq<string>)
    requires Enabled(s, a) && Fails(w, Do(w, s, a), requests)
    ensures Fails(w, s, requests)
  {
    var steps :| RunsTo(w, Do(w, s, a), steps).Some? && Bad(w, RunsTo(w, Do(w, s, a), steps).value, requests);
    assert ([a] + steps)[1..] == steps;
    assert RunsTo(w, s, [a] + steps) == RunsTo(w, Do(w, s, a), steps);
  }

  lemma MissingIsBad(w: World, s: State, requests: seq<string>, x: string)
    requires Finished(s) && x in requests && x !in s.files
    ensures Bad(w, s, requests)
  {
    var i :| 0 <= i < |requests| && requests[i] == x;
    assert !Complete(w, s, requests[i]);
  }

  lemma WaitingIsStuck(w: World, s: State, requests: seq<string>)
    requires s.phase != Idle && s.request.None? && s.unread == [] && s.inflight == []
    ensures Bad(w, s, requests)
  {
    forall a
      ensures !Enabled(s, a)
    {
    }
  }

  // ---- from one state to the next, with all that is unread sent

  function Flushed(s: State): State {
    State(s.pending, s.phase, s.request, [], s.inflight + s.unread, s.files)
  }

  lemma {:induction false} FlushFails(w: World, s: State, requests: seq<string>)
    requires Fails(w, Flushed(s), requests)
    ensures Fails(w, s, requests)
    decreases |s.unread|
  {
    if s.unread == [] {
      assert s.inflight + [] == s.inflight;
    } else {
      var n := Min(SEND_SIZE, |s.unread|);
      assert s.inflight + s.unread[..n] + s.unread[n..] == s.inflight + s.unread;
      FlushFails(w, Do(w, s, Send), requests);
      FailsLater(w, s, Send, requests);
    }
  }

  /** What the server answers to a name. */
  function Reply(w: World, name: string): string {
    if !Contains(w.listing, name) then MESSAGE else if name in w.dir then w.dir[name] else []
  }

  /** The client is at its prompt, the server waits; bytes of before may be in flight. */
  predicate AtPrompt(s: State) {
    s.phase == Idle && s.request.None? && s.unread == []
  }

  /** The next name has been asked for and answered in full. */
  function Answered(w: World, s: State): State
    requires s.pending != []
  {
    var name := s.pending[0];
    State(s.pending[1..], Waiting(name), None, [], s.inflight + Reply(w, name), s.files)
  }

  lemma AskedAndAnswered(w: World, s: State, requests: seq<string>)
    requires AtPrompt(s) && s.pending != [] && s.pending[0] != EXIT
    requires Fails(w, Answered(w, s), requests)
    ensures Fails(w, s, requests)
  {
    var asked := Do(w, s, Ask);
    var accepted := Do(w, asked, Accept);
    assert Flushed(accepted) == Answered(w, s) by {
      assert s.inflight + MESSAGE + [] == s.inflight + MESSAGE;
    }
    FlushFails(w, accepted, requests);
    FailsLater(w, asked, Accept, requests);
    FailsLater(w, s, Ask, requests);
  }

  // ---- a stored size that the stream does not meet

  /** The size has been passed, or will not be reached: the client waits for ever. */
  lemma {:induction false} Starved(w: World, s: State, name: string, total: nat, requests: seq<string>)
    requires s.phase == Receiving(name, total) && s.request.None? && s.unread == []
    requires w.sizeOf(name) <= total || total + |s.inflight| < w.sizeOf(name)
    ensures Fails(w, s, requests)
    decreases |s.inflight|
  {
    if s.inflight == [] {
      WaitingIsStuck(w, s, requests);
      FailsNow(w, s, requests);
    } else {
      Starved(w, Do(w, s, Recv(1)), name, total + 1, requests);
      FailsLater(w, s, Recv(1), requests);
    }
  }

  /** One recv that returns two bytes passes over the size. */
  lemma {:induction false} Straddle(w: World, s: State, name: string, total: nat, requests: seq<string>)
    requires s.phase == Receiving(name, total) && s.request.None? && s.unread == []
    requires total < w.sizeOf(name) < total + |s.inflight|
    ensures Fails(w, s, requests)
    decreases |s.inflight|
  {
    if total + 1 == w.sizeOf(name) {
      Starved(w, Do(w, s, Recv(2)), name, total + 2, requests);
      FailsLater(w, s, Recv(2), requests);
    } else {
      Straddle(w, Do(w, s, Recv(1)), name, total + 1, requests);
      FailsLater(w, s, Recv(1), requests);
    }
  }

  lemma ShortIsNoMessage(chunk: string)
    requires |chunk| < 20
    ensures CStr(chunk) != MESSAGE
  {
    MessageIsText();
    assert |CStr(chunk)| <= |chunk|;
  }

  lemma ChunkWritten(w: World, s: State, name: string, k: nat)
    requires s.phase == Waiting(name) && 1 <= k < 20 && k <= |s.inflight|
    ensures Enabled(s, Recv(k)) && Do(w, s, Recv(k)) == Written(w, s, name, k, k, s.inflight[..k])
  {
    ShortIsNoMessage(s.inflight[..k]);
  }

  /** A stream of any other length than the stored size can leave the client waiting. */
  lemma Overrun(w: World, s: State, name: string, requests: seq<string>)
    requires s.phase == Waiting(name) && s.request.None? && s.unread == []
    requires s.inflight != [] && w.sizeOf(name) != |s.inflight|
    ensures Fails(w, s, requests)
  {
    var k := if w.sizeOf(name) == 1 then 2 else 1;
    ChunkWritten(w, s, name, k);
    var next := Do(w, s, Recv(k));
    if 1 < w.sizeOf(name) < |s.inflight| {
      Straddle(w, next, name, k, requests);
    } else {
      Starved(w, next, name, k, requests);
    }
    FailsLater(w, s, Recv(k), requests);
  }

  // ---- a stored size that fits

  function Filled(s: State, name: string, content: string): State {
    State(s.pending, Idle, None, [], [], s.files[name := content])
  }

  lemma {:induction false} Drain(w: World, s: State, name: string, total: nat, requests: seq<string>)
    requires s.phase == Receiving(name, total) && s.request.None? && s.unread == [] && name in s.files
    requires s.inflight != [] && w.sizeOf(name) == total + |s.inflight|
    requires Fails(w, Filled(s, name, s.files[name] + s.inflight), requests)
    ensures Fails(w, s, requests)
    decreases |s.inflight|
  {
    var had, next := s.files[name], Do(w, s, Recv(1));
    var content := had + s.inflight[..1];
    assert next.files == s.files[name := content];
    assert content + s.inflight[1..] == had + s.inflight;
    if |s.inflight| == 1 {
      assert s.inflight[..1] == s.inflight && s.inflight[1..] == [];
      assert next == Filled(s, name, had + s.inflight);
    } else {
      assert s.files[name := content][name := had + s.inflight] == s.files[name := had + s.inflight];
      Drain(w, next, name, total + 1, requests);
    }
    FailsLater(w, s, Recv(1), requests);
  }

  /** A stream of the stored size can be taken whole. */
  lemma Fits(w: World, s: State, name: string, requests: seq<string>)
    requires s.phase == Waiting(name) && s.request.None? && s.unread == []
    requires s.inflight != [] && w.sizeOf(name) == |s.inflight|
    requires Fails(w, Filled(s, name, s.inflight), requests)
    ensures Fails(w, s, requests)
  {
    ChunkWritten(w, s, name, 1);
    var next, chunk := Do(w, s, Recv(1)), s.inflight[..1];
    assert chunk + s.inflight[1..] == s.inflight;
    if |s.inflight| == 1 {
      assert chunk == s.inflight && s.inflight[1..] == [];
      assert next == Filled(s, name, s.inflight);
    } else {
      assert s.files[name := chunk][name := s.inflight] == s.files[name := s.inflight];
      Drain(w, next, name, 1, requests);
    }
    FailsLater(w, s, Recv(1), requests);
  }

  // ---- the message

  lemma PrefixCut(p: string, s: string)
    requires IsPrefix(p, s)
    ensures s[..|p|] == p
  {
  }

  lemma MessageIsText()
    ensures CStr(MESSAGE) == MESSAGE && |MESSAGE| == 20
  {
    assert '\0' !in MESSAGE;
  }

  /** A first recv that returns exactly the message ends the wait, and writes nothing. */
  lemma TakenForRefusal(w: World, s: State, name: string, k: nat)
    requires s.phase == Waiting(name) && 1 <= k <= RECV_SIZE && k <= |s.inflight|
    requires CStr(s.inflight[..k]) == MESSAGE
    ensures Enabled(s, Recv(k))
    ensures Do(w, s, Recv(k)) == State(s.pending, Idle, s.request, s.unread, s.inflight[k..], s.files)
  {
  }

  lemma MessageFirst(w: World, s: State, name: string)
    requires s.phase == Waiting(name) && IsPrefix(MESSAGE, s.inflight)
    ensures Enabled(s, Recv(20))
    ensures Do(w, s, Recv(20)) == State(s.pending, Idle, s.request, s.unread, s.inflight[20..], s.files)
  {
    MessageIsText();
    PrefixCut(MESSAGE, s.inflight);
    TakenForRefusal(w, s, name, 20);
  }

  /** Why a request that is answered with as many bytes as the stored size is not deliverable. */
  lemma StartsWithMessage(w: World, x: string)
    requires !Deliverable(w, x) && x != EXIT && Reply(w, x) != [] && w.sizeOf(x) == |Reply(w, x)|
    ensures IsPrefix(MESSAGE, Reply(w, x))
  {
    assert MESSAGE[..|MESSAGE|] == MESSAGE;
  }

  /** A session with an undeliverable request `x` has a bad schedule, from every prompt at
      which `x` has not been written. */
  lemma {:induction false} SessionFails(w: World, s: State, requests: seq<string>, x: string)
    requires AtPrompt(s) && x in requests && x !in s.files && !Deliverable(w, x)
    requires s.inflight != [] ==> w.sizeOf(x) == |Reply(w, x)|
    ensures Fails(w, s, requests)
    decreases |s.pending|
  {
    if s.pending == [] {
      MissingIsBad(w, s, requests, x);
      FailsNow(w, s, requests);
    } else if s.pending[0] == EXIT {
      var ended := Do(w, s, Ask);
      MissingIsBad(w, ended, requests, x);
      FailsNow(w, ended, requests);
      FailsLater(w, s, Ask, requests);
    } else {
      AnsweredFails(w, s, requests, x);
      AskedAndAnswered(w, s, requests);
    }
  }

  lemma AnsweredFails(w: World, s: State, requests: seq<string>, x: string)
    requires AtPrompt(s) && x in requests && x !in s.files && !Deliverable(w, x)
    requires s.inflight != [] ==> w.sizeOf(x) == |Reply(w, x)|
    requires s.pending != [] && s.pending[0] != EXIT
    ensures Fails(w, Answered(w, s), requests)
    decreases |s.pending|, 0
  {
    var t, name := Answered(w, s), s.pending[0];
    if t.inflight == [] {
      WaitingIsStuck(w, t, requests);
      FailsNow(w, t, requests);
    } else if w.sizeOf(name) != |t.inflight| {
      Overrun(w, t, name, requests);
    } else if name != x {
      SessionFails(w, Filled(t, name, t.inflight), requests, x);
      Fits(w, t, name, requests);
    } else {
      assert [] + Reply(w, x) == Reply(w, x);
      StartsWithMessage(w, x);
      MessageFirst(w, t, x);
      SessionFails(w, Do(w, t, Recv(20)), requests, x);
      FailsLater(w, t, Recv(20), requests);
    }
  }

  /** A session is reliable under every schedule if and only if every request is
      deliverable: a listed file of the stored size, not called "exit", not empty, and not
      starting with the message. */
  lemma ReliableExactlyIf(w: World, requests: seq<string>)
    ensures Reliable(w, requests) <==> AllDeliverable(w, requests)
  {
    if AllDeliverable(w, requests) {
      forall steps | RunsTo(w, Start(requests), steps).Some?
        ensures !Bad(w, RunsTo(w, Start(requests), steps).value, requests)
      {
        ExactTransfer(w, requests, steps);
      }
    } else {
      var i :| 0 <= i < |requests| && !Deliverable(w, requests[i]);
      SessionFails(w, Start(requests), requests, requests[i]);
    }
  }

  lemma {:induction false} AskThenAccept(w: World, name: string)
    requires name != EXIT && name in w.dir && Contains(w.listing, name)
    ensures RunsTo(w, Start([name]), [Ask, Accept]) == Some(State([], Waiting(name), None, w.dir[name], [], map[]))
  {
    assert [Ask, Accept][1..] == [Accept] && [Accept][1..] == [] && [name][1..] == [];
  }

  /** An empty file that is asked for by its listed name: the server sends nothing, and the
      client waits for ever. */
  lemma {:induction false} EmptyFileStalls(w: World, name: string)
    requires name in w.dir && w.dir[name] == []
    ensures !Reliable(w, [name])
    ensures name != EXIT && Contains(w.listing, name) ==>
              var t := RunsTo(w, Start([name]), [Ask, Accept]);
              t.Some? && t.value.phase == Waiting(name) && Stuck(t.value)
  {
    assert [name][0] == name;
    ReliableExactlyIf(w, [name]);
    if name != EXIT && Contains(w.listing, name) {
      AskThenAccept(w, name);
      WaitingIsStuck(w, RunsTo(w, Start([name]), [Ask, Accept]).value, [name]);
    }
  }

  lemma {:induction false} RunsOn(w: World, s: State, first: seq<Step>, more: seq<Step>)
    requires RunsTo(w, s, first).Some?
    ensures RunsTo(w, s, first + more) == RunsTo(w, RunsTo(w, s, first).value, more)
    decreases |first|
  {
    if first == [] {
      assert first + more == more;
    } else {
      assert (first + more)[1..] == first[1..] + more;
      RunsOn(w, Do(w, s, first[0]), first[1..], more);
    }
  }

  /** One send, and a recv that returns the message at its front. */
  lemma {:induction false} SendThenMessage(w: World, s: State, name: string)
    requires s.phase == Waiting(name) && s.inflight == [] && IsPrefix(MESSAGE, s.unread)
    ensures var t := RunsTo(w, s, [Send, Recv(20)]);
            t.Some? && t.value.phase == Idle && t.value.pending == s.pending && t.value.files == s.files
  {
    MessageSize();
    var sent := Do(w, s, Send);
    PrefixKept(MESSAGE, s.unread, Min(SEND_SIZE, |s.unread|));
    MessageFirst(w, sent, name);
    assert [Send, Recv(20)][1..] == [Recv(20)] && [Recv(20)][1..] == [];
    assert RunsTo(w, sent, [Recv(20)]) == RunsTo(w, Do(w, sent, Recv(20)), []);
  }

  lemma PrefixKept(p: string, s: string, n: nat)
    requires IsPrefix(p, s) && |p| <= n <= |s|
    ensures IsPrefix(p, [] + s[..n])
  {
    assert [] + s[..n] == s[..n];
  }

  /** A file that starts with the message can arrive in such pieces that the client takes
      it for the server's refusal: the session is finished, and the file not written. */
  lemma {:induction false} MessageFileIsMistaken(w: World, name: string)
    requires name in w.dir && IsPrefix(MESSAGE, w.dir[name])
    ensures !Reliable(w, [name])
    ensures name != EXIT && Contains(w.listing, name) ==>
              var t := RunsTo(w, Start([name]), [Ask, Accept] + [Send, Recv(20)]);
              t.Some? && Finished(t.value) && name !in t.value.files
  {
    assert [name][0] == name;
    ReliableExactlyIf(w, [name]);
    if name != EXIT && Contains(w.listing, name) {
      AskThenAccept(w, name);
      SendThenMessage(w, RunsTo(w, Start([name]), [Ask, Accept]).value, name);
      RunsOn(w, Start([name]), [Ask, Accept], [Send, Recv(20)]);
    }
  }

  // ------------------------------------------------- the end of a refusal

  /** Some schedule brings the client back to its prompt. */
  ghost predicate CanEnd(w: World, s: State) {
    exists steps :: RunsTo(w, s, steps).Some? && RunsTo(w, s, steps).value.phase == Idle
  }

  lemma {:induction false} NeverEnds(w: World, s: State, name: string, total: nat, steps: seq<Step>)
    requires s.phase == Receiving(name, total) && s.request.None?
    requires w.sizeOf(name) <= total || total + |s.inflight| + |s.unread| < w.sizeOf(name)
    requires RunsTo(w, s, steps).Some?
    ensures RunsTo(w, s, steps).value.phase.Receiving?
    decreases |steps|
  {
    if steps != [] {
      var next := Do(w, s, steps[0]);
      NeverEnds(w, next, name, if steps[0].Recv? then total + steps[0].k else total, steps[1..]);
    }
  }

  /** The refusal of a name, of which the first recv returns `k` bytes, can end the wait
      if and only if it came whole, or the stored size lies between `k` and its 20 bytes.
      For a name that is not listed the stored size is 0: unless the refusal comes whole,
      it is written to the file and the client waits for ever. */
  lemma RefusalEndsWait(w: World, s: State, name: string, k: nat)
    requires s.phase == Waiting(name) && s.request.None? && s.unread == [] && s.inflight == MESSAGE
    requires 1 <= k <= 20
    ensures Enabled(s, Recv(k))
    ensures CanEnd(w, Do(w, s, Recv(k))) <==> k == 20 || k <= w.sizeOf(name) <= 20
    ensures name in Do(w, s, Recv(k)).files && name !in s.files ==> k < 20
  {
    MessageIsText();
    if k == 20 {
      MessageWhole(w, s, name);
      assert RunsTo(w, Do(w, s, Recv(20)), []) == Some(Do(w, s, Recv(20)));
    } else {
      ChunkWritten(w, s, name, k);
      RestOfRefusal(w, Do(w, s, Recv(k)), name, k);
    }
  }

  lemma MessageWhole(w: World, s: State, name: string)
    requires s.phase == Waiting(name) && s.inflight == MESSAGE
    ensures Enabled(s, Recv(20)) && Do(w, s, Recv(20)).phase == Idle && Do(w, s, Recv(20)).files == s.files
  {
    assert MESSAGE[..|MESSAGE|] == MESSAGE;
    MessageFirst(w, s, name);
  }

  lemma RestOfRefusal(w: World, s: State, name: string, k: nat)
    requires s.phase == (if w.sizeOf(name) == k then Idle else Receiving(name, k))
    requires s.request.None? && s.unread == [] && |s.inflight| == 20 - k && 1 <= k < 20
    ensures CanEnd(w, s) <==> k <= w.sizeOf(name) <= 20
  {
    var n := w.sizeOf(name) - k;
    if n == 0 {
      assert RunsTo(w, s, []) == Some(s);
    } else if 0 < n <= 20 - k {
      var ended := Do(w, s, Recv(n));
      assert [Recv(n)][1..] == [];
      assert RunsTo(w, s, [Recv(n)]) == RunsTo(w, ended, []) == Some(ended);
    } else {
      forall steps | RunsTo(w, s, steps).Some?
        ensures RunsTo(w, s, steps).value.phase.Receiving?
      {
        NeverEnds(w, s, name, k, steps);
      }
    }
  }

  // ------------------------------------ from the directory to the download

  /** The upload directory: names with contents, without its own two entries. */
  datatype File = File(name: string, content: string)

  function Listings(files: seq<File>): (r: seq<Listed>)
    ensures |r| == |files|
    ensures forall i :: 0 <= i < |r| ==> r[i] == Listed(files[i].name, |files[i].content|)
  {
    seq(|files|, i requires 0 <= i < |files| => Listed(files[i].name, |files[i].content|))
  }

  predicate Readable(entries: seq<Scanned>) {
    forall i :: 0 <= i < |entries| ==> entries[i].name.Some? && entries[i].size.Some?
  }

  /** What the client hands to its index, line by line. */
  function Parsed(entries: seq<Scanned>): (r: seq<Listed>)
    requires Readable(entries)
    ensures |r| == |entries|
    ensures forall i :: 0 <= i < |r| ==> r[i] == Listed(entries[i].name.value, entries[i].size.value)
  {
    seq(|entries|, i requires 0 <= i < |entries| => Listed(entries[i].name.value, entries[i].size.value))
  }

  lemma {:induction false} ParsedIsListed(listed: seq<Listed>, max: nat)
    requires AllPlain(listed, max)
    ensures var entries := ScanAll(Tokens(Listing(listed)), max);
            Readable(entries) && Parsed(entries) == listed
  {
    PlainListReadBack(listed, max);
  }

  predicate GoodDirectory(files: seq<File>, max: nat) {
    && (forall i, j :: 0 <= i < j < |files| ==> files[i].name != files[j].name)
    && (forall i :: 0 <= i < |files| ==> Plain(files[i].name) && |files[i].content| <= max)
  }

  predicate Offers(dir: map<string, string>, files: seq<File>) {
    forall i :: 0 <= i < |files| ==> files[i].name in dir && dir[files[i].name] == files[i].content
  }

  /** The list the client parses is the directory's, so each version's index knows every
      file's true size, and each file can be requested. */
  lemma ListedIsDeliverable(files: seq<File>, dir: map<string, string>, max: nat, k: nat)
    requires GoodDirectory(files, max) && Offers(dir, files) && k < |files| && files[k].name != EXIT
    requires files[k].content != [] && !IsPrefix(MESSAGE, files[k].content)
    ensures var text := Listing(Listings(files));
            var entries := ScanAll(Tokens(text), max);
            && Readable(entries)
            && var history := Parsed(entries);
               && Deliverable(World(dir, text, n => LastSize(history, n)), files[k].name)
               && (ShortNames(history) ==>
                     Deliverable(World(dir, text, n => FirstSize(AllStored(history), n)), files[k].name))
  {
    var listed := Listings(files);
    assert AllPlain(listed, max) && DistinctNames(listed);
    ParsedIsListed(listed, max);
    ListedNamePasses(listed, k);
    LastSizeIs(listed, k);
    if ShortNames(listed) { VersionsAgree(listed, files[k].name); }
  }

  // ----------------------------------------------- the loops of the programs

  /** The server's send loop: chunks of 3072 bytes until the file is read, the last one shorter
      or as long. */
  method SendFile(file: string) returns (sent: seq<string>)
    ensures Concat(sent) == file
    ensures forall i :: 0 <= i < |sent| ==> 0 < |sent[i]| <= 3072 && (i < |sent| - 1 ==> |sent[i]| == 3072)
  {
    sent := [];
    var pos := 0;
    assert file[..0] == [];
    while pos < |file|
      invariant 0 <= pos <= |file|
      invariant Concat(sent) == file[..pos]
      invariant forall i :: 0 <= i < |sent| ==> 0 < |sent[i]| <= 3072 && (pos < |file| ==> |sent[i]| == 3072)
      invariant forall i :: 0 <= i < |sent| - 1 ==> |sent[i]| == 3072
    {
      var bytesRead := Min(SEND_SIZE, |file| - pos);
      var chunk := file[pos..pos + bytesRead];
      ConcatGrows(sent, chunk);
      assert file[..pos] + chunk == file[..pos + bytesRead];
      sent := sent + [chunk];
      pos := pos + bytesRead;
    }
    assert file[..|file|] == file;
  }

  /** A connection seen from the client; the server sends whenever it likes. */
  class Connection {
    var unread: string
    var inflight: string

    constructor (file: string)
      ensures inflight + unread == file
    {
      unread, inflight := file, [];
    }

    /** A recv that does not fail: it waits for data and returns any part of it. */
    method Recv(max: nat) returns (chunk: string)
      requires inflight + unread != [] && 0 < max
      modifies this
      ensures 0 < |chunk| <= max && chunk + (inflight + unread) == old(inflight + unread)
    {
      var more := *;
      while inflight == [] || (more && unread != [])
        invariant inflight + unread == old(inflight + unread)
        decreases |unread|
      {
        more := *;
        var n := Min(SEND_SIZE, |unread|);
        assert inflight + unread[..n] + unread[n..] == inflight + unread;
        inflight, unread := inflight + unread[..n], unread[n..];
      }
      var available := if max < |inflight| then max else |inflight|;
      var k :| 1 <= k <= available;
      chunk := inflight[..k];
      assert chunk + (inflight[k..] + unread) == inflight + unread;
      inflight := inflight[k..];
    }
  }

  /** The client's download of one file: the first recv, the check for the message, and
      the do-while loop until the counted bytes equal the stored size. */
  method Download(connection: Connection, filesize: nat) returns (file: Option<string>)
    requires var content := connection.inflight + connection.unread;
             |content| == filesize && content != [] && !IsPrefix(MESSAGE, content)
    modifies connection
    ensures file == Some(old(connection.inflight + connection.unread))
    ensures connection.inflight == [] && connection.unread == []
  {
    ghost var content := connection.inflight + connection.unread;
    var total := 0;
    var buffer := connection.Recv(RECV_SIZE);
    total := total + |buffer|;
    assert content[..|buffer|] == buffer;
    MessageChunk(content, buffer);
    if CStr(buffer) == MESSAGE {
      return None;
    }
    var written := buffer;
    if filesize != total {
      while true
        invariant |written| == total < filesize
        invariant written + (connection.inflight + connection.unread) == content
        decreases filesize - total
      {
        buffer := connection.Recv(RECV_SIZE);
        total := total + |buffer|;
        assert written + buffer + (connection.inflight + connection.unread)
            == written + (buffer + (connection.inflight + connection.unread));
        written := written + buffer;
        if filesize == total {
          break;
        }
      }
    }
    file := Some(written);
    assert |connection.inflight + connection.unread| == 0;
    assert written + [] == written;
  }
}
