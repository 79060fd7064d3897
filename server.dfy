/** The server of src/server.rs: one `update` step (read a message, hand it to the
    handler, write the answer if there is one) and the daemon loop that repeats it while
    a shared flag stays set. */
module Server {
  import opened Results
  import opened Wire
  import opened Serializer
  import opened Channel

  /** What one `update` does to the channel's streams: it completes with a result, or it
      never returns because `read` waits forever on whitespace-only input. */
  datatype UpdateOutcome = Completes(result: Result<(), Error>, after: ChannelState) | Blocks

  /** Specification of `Server::update`. */
  function UpdateSpec<M>(ser: LineJson<M>, handler: M -> Option<M>, cs: ChannelState): (r: UpdateOutcome)
    requires cs.Valid()
    ensures r.Completes? ==> r.after.Valid() && r.after.Split? == cs.Split?
  {
    var rd := ReadSpec(ser, cs.ReadSide());
    if rd.NeverReturns? then Blocks
    else
      var read := cs.WithReadSide(rd.after);
      match rd.result
      case Err(e) => Completes(Err(e), read)
      case Ok(message) =>
        match handler(message)
        case None => Completes(Ok(()), read)
        case Some(response) =>
          var w := WriteSpec(ser, read.WriteSide(), response);
          Completes(w.value, read.WithWriteSide(w.after))
  }

  /** `Server<R, W, S, C, H>`: a channel and a message handler. */
  datatype Server<!M> = Server(channel: OwnedChannel<M>, handler: M -> Option<M>) {
    static function New(channel: OwnedChannel<M>, handler: M -> Option<M>): (s: Server<M>)
      ensures s.channel == channel && s.handler == handler
    {
      Server(channel, handler)
    }

    method Update() returns (r: Result<(), Error>)
      requires channel.Valid() && !Blank(channel.State().ReadSide().Unread())
      modifies channel.Reader(), channel.Writer()
      ensures channel.Valid()
      ensures UpdateSpec(channel.GetSerializer(), handler, old(channel.State())) == Completes(r, channel.State())
    {
      label Before:
      var message := channel.Read();
      label Read:
      assert channel.State() == old@Before(channel.State()).WithReadSide(ReadSpec(channel.GetSerializer(), old@Before(channel.State()).ReadSide()).after);
      if message.Err? {
        return Err(message.error);
      }
      var response := handler(message.value);
      if response.Some? {
        var w := channel.Write(response.value);
        assert channel.State() == old@Read(channel.State()).WithWriteSide(WriteSpec(channel.GetSerializer(), old@Read(channel.State()).WriteSide(), response.value).after);
        if w.Err? {
          return Err(w.error);
        }
      }
      return Ok(());
    }
  }

  /** `update` never returns exactly when nothing but whitespace is left to read. */
  lemma UpdateBlocksIffBlank<M>(ser: LineJson<M>, handler: M -> Option<M>, cs: ChannelState)
    requires cs.Valid()
    ensures UpdateSpec(ser, handler, cs).Blocks? <==> Blank(cs.ReadSide().Unread())
  {
    ReadReturnsUnlessBlank(ser, cs.ReadSide());
  }

  /** A failed read is returned as it is, nothing is written, and the handler is not
      consulted: any other handler gives the same step. */
  lemma UpdateReadError<M>(ser: LineJson<M>, handler: M -> Option<M>, other: M -> Option<M>, cs: ChannelState)
    requires cs.Valid()
    requires var rd := ReadSpec(ser, cs.ReadSide()); rd.Returns? && rd.result.Err?
    ensures var rd := ReadSpec(ser, cs.ReadSide());
      UpdateSpec(ser, handler, cs) == Completes(Err(rd.result.error), cs.WithReadSide(rd.after))
    ensures UpdateSpec(ser, handler, cs) == UpdateSpec(ser, other, cs)
    ensures var after := UpdateSpec(ser, handler, cs).after;
      after.WriteSide().data == cs.WriteSide().data && after.WriteSide().flushed == cs.WriteSide().flushed
  {
  }

  /** A handler that answers nothing makes `update` succeed without writing. */
  lemma UpdateNoResponse<M>(ser: LineJson<M>, handler: M -> Option<M>, cs: ChannelState)
    requires cs.Valid()
    requires var rd := ReadSpec(ser, cs.ReadSide());
      rd.Returns? && rd.result.Ok? && handler(rd.result.value).None?
    ensures var rd := ReadSpec(ser, cs.ReadSide());
      UpdateSpec(ser, handler, cs) == Completes(Ok(()), cs.WithReadSide(rd.after))
    ensures var after := UpdateSpec(ser, handler, cs).after;
      after.WriteSide().data == cs.WriteSide().data && after.WriteSide().flushed == cs.WriteSide().flushed
  {
  }

  /** A handler's answer is written once, as one frame after what the writer held
      (after the read, on a shared stream), and the write's outcome is the update's. */
  lemma UpdateWritesResponse<M>(ser: LineJson<M>, handler: M -> Option<M>, cs: ChannelState)
    requires cs.Valid()
    requires var rd := ReadSpec(ser, cs.ReadSide());
      rd.Returns? && rd.result.Ok? && handler(rd.result.value).Some?
    ensures var rd := ReadSpec(ser, cs.ReadSide());
      var response := handler(rd.result.value).value;
      var before := cs.WithReadSide(rd.after).WriteSide();
      var u := UpdateSpec(ser, handler, cs);
      u.Completes? && u.result == WriteSpec(ser, before, response).value &&
      u.after.WriteSide() == WriteSpec(ser, before, response).after &&
      (u.result.Ok? ==> u.after.WriteSide().data == before.data + Frame(ser.encode(response).value)) &&
      (ser.encode(response).Err? ==> u.result == Err(Json(ser.encode(response).error)) && u.after.WriteSide() == before)
  {
    var rd := ReadSpec(ser, cs.ReadSide());
    var response := handler(rd.result.value).value;
    var before := cs.WithReadSide(rd.after).WriteSide();
    if ser.encode(response).Ok? {
      WriteAppendsFrame(ser, before, response);
    }
  }

  /** Every completed `update` performs exactly one `read`: the reader's cursor ends where
      that one read leaves it, and a write never moves it. */
  lemma UpdateReadsOnce<M>(ser: LineJson<M>, handler: M -> Option<M>, cs: ChannelState)
    requires cs.Valid() && !Blank(cs.ReadSide().Unread())
    ensures var rd := ReadSpec(ser, cs.ReadSide());
      var u := UpdateSpec(ser, handler, cs);
      rd.Returns? && u.Completes? && u.after.ReadSide().pos == rd.after.pos
  {
    ReadReturnsUnlessBlank(ser, cs.ReadSide());
  }

  // ----- the daemon

  /** The `Arc<AtomicBool>` shared by a `Daemon` handle and its server thread. */
  class LiveFlag {
    var alive: bool

    constructor ()
      ensures alive
    {
      alive := true;
    }
  }

  /** `Daemon`: the handle kept by whoever launched the server thread. */
  datatype Daemon = Daemon(flag: LiveFlag) {
    function IsAlive(): bool
      reads flag
    {
      flag.alive
    }

    method Kill()
      modifies flag
      ensures !IsAlive()
    {
      flag.alive := false;
    }
  }

  /** Why the daemon loop stopped. `Blocked` stands for a `read` that waits forever, and
      `RoundsExhausted` for the end of the finite run the model looks at. */
  datatype Exit = FlagCleared | StoppedByHandler | Blocked | RoundsExhausted

  /** The loop's state: the flag and the channel's streams. */
  datatype DaemonState = DaemonState(alive: bool, channel: ChannelState)

  /** One pass of the daemon loop: test the flag, run `update`, consult the errors handler
      on an error. `None` means the loop goes round again. */
  function LoopStep<M>(ser: LineJson<M>, handler: M -> Option<M>, errors: Error -> bool, ds: DaemonState): (r: Effect<Option<Exit>, DaemonState>)
    requires ds.channel.Valid()
    ensures r.after.channel.Valid()
    ensures r.value.None? ==> ds.alive && r.after.alive
    ensures r.value != Some(RoundsExhausted)
    ensures r.after.alive <==> r.value.None? || (r.value == Some(Blocked) && ds.alive)
  {
    if !ds.alive then Effect(Some(FlagCleared), ds)
    else
      match UpdateSpec(ser, handler, ds.channel)
      case Blocks => Effect(Some(Blocked), ds)
      case Completes(res, cs) =>
        if res.Err? && errors(res.error) then Effect(Some(StoppedByHandler), DaemonState(false, cs))
        else Effect(None, DaemonState(true, cs))
  }

  /** The errors handler is consulted only when `update` fails: when it succeeds, any
      other errors handler gives the same pass. */
  lemma LoopStepIgnoresErrorsHandlerOnOk<M>(ser: LineJson<M>, handler: M -> Option<M>, errors: Error -> bool, other: Error -> bool, ds: DaemonState)
    requires ds.channel.Valid()
    requires var u := UpdateSpec(ser, handler, ds.channel); u.Completes? && u.result.Ok?
    ensures LoopStep(ser, handler, errors, ds) == LoopStep(ser, handler, other, ds)
  {
  }

  /** An error the errors handler accepts stops the loop with the flag cleared; one it
      rejects lets the loop go on with the flag set. */
  lemma LoopStepOnError<M>(ser: LineJson<M>, handler: M -> Option<M>, errors: Error -> bool, ds: DaemonState)
    requires ds.channel.Valid() && ds.alive
    requires var u := UpdateSpec(ser, handler, ds.channel); u.Completes? && u.result.Err?
    ensures var u := UpdateSpec(ser, handler, ds.channel);
      var r := LoopStep(ser, handler, errors, ds);
      r.after.channel == u.after &&
      (errors(u.result.error) ==> r == Effect(Some(StoppedByHandler), DaemonState(false, u.after))) &&
      (!errors(u.result.error) ==> r == Effect(None, DaemonState(true, u.after)))
  {
  }

  /** Up to `rounds` passes of the daemon loop. */
  function RunSpec<M>(ser: LineJson<M>, handler: M -> Option<M>, errors: Error -> bool, ds: DaemonState, rounds: nat): (r: Effect<Exit, DaemonState>)
    requires ds.channel.Valid()
    ensures r.after.channel.Valid()
    decreases rounds
  {
    if !ds.alive then Effect(FlagCleared, ds)
    else if rounds == 0 then Effect(RoundsExhausted, ds)
    else
      var step := LoopStep(ser, handler, errors, ds);
      if step.value.Some? then Effect(step.value.value, step.after)
      else RunSpec(ser, handler, errors, step.after, rounds - 1)
  }

  /** The loop ends with the flag cleared exactly when it was never set or the errors handler
      asked to stop, and `FlagCleared` is reported exactly when the flag was clear on entry:
      within one thread nothing but the errors handler clears it. */
  lemma {:induction false} RunSpecExits<M>(ser: LineJson<M>, handler: M -> Option<M>, errors: Error -> bool, ds: DaemonState, rounds: nat)
    requires ds.channel.Valid()
    ensures var r := RunSpec(ser, handler, errors, ds, rounds);
      (r.value == FlagCleared <==> !ds.alive) &&
      (r.after.alive <==> ds.alive && r.value != StoppedByHandler)
    decreases rounds
  {
    if ds.alive && rounds > 0 {
      var step := LoopStep(ser, handler, errors, ds);
      if step.value.None? {
        RunSpecExits(ser, handler, errors, step.after, rounds - 1);
      }
    }
  }

  /** An errors handler that never answers `true` never stops the loop. */
  lemma {:induction false} RunSpecNeverStopsWithoutHandler<M>(ser: LineJson<M>, handler: M -> Option<M>, errors: Error -> bool, ds: DaemonState, rounds: nat)
    requires ds.channel.Valid()
    requires forall e :: !errors(e)
    ensures RunSpec(ser, handler, errors, ds, rounds).value != StoppedByHandler
    decreases rounds
  {
    if ds.alive && rounds > 0 {
      var step := LoopStep(ser, handler, errors, ds);
      if step.value.None? {
        RunSpecNeverStopsWithoutHandler(ser, handler, errors, step.after, rounds - 1);
      }
    }
  }

  /** `rounds` passes of the loop from `ds` end in `target`. */
  ghost predicate RunEndsIn<M>(ser: LineJson<M>, handler: M -> Option<M>, errors: Error -> bool, ds: DaemonState, rounds: nat, target: Effect<Exit, DaemonState>)
  {
    ds.channel.Valid() && RunSpec(ser, handler, errors, ds, rounds) == target
  }

  /** A pass that stops the loop with `exit` stops the run with it, in the state the pass leaves. */
  lemma RunSpecStopsWithPass<M>(ser: LineJson<M>, handler: M -> Option<M>, errors: Error -> bool, before: DaemonState, after: DaemonState, exit: Exit, rounds: nat, target: Effect<Exit, DaemonState>)
    requires RunEndsIn(ser, handler, errors, before, rounds, target) && before.alive && rounds > 0
    requires LoopStep(ser, handler, errors, before) == Effect(Some(exit), after)
    ensures target == Effect(exit, after)
  {
  }

  /** A pass that lets the loop go round leaves the rest of the run to the passes after it. */
  lemma RunSpecContinuesAfterPass<M>(ser: LineJson<M>, handler: M -> Option<M>, errors: Error -> bool, before: DaemonState, after: DaemonState, rounds: nat, target: Effect<Exit, DaemonState>)
    requires RunEndsIn(ser, handler, errors, before, rounds, target) && before.alive && rounds > 0
    requires LoopStep(ser, handler, errors, before) == Effect(None, after)
    ensures RunEndsIn(ser, handler, errors, after, rounds - 1, target)
  {
  }

  /** The body of the thread `daemon` spawns: the server, the errors handler and the flag. */
  datatype Worker<!M> = Worker(server: Server<M>, errors: Error -> bool, flag: LiveFlag) {
    ghost predicate Valid()
      reads server.channel.Reader(), server.channel.Writer()
    {
      server.channel.Valid()
    }

    function State(): DaemonState
      reads flag, server.channel.Reader(), server.channel.Writer()
    {
      DaemonState(flag.alive, server.channel.State())
    }

    /** One pass of the `while alive` loop. */
    method Iterate() returns (exit: Option<Exit>)
      requires Valid()
      modifies flag, server.channel.Reader(), server.channel.Writer()
      ensures Valid()
      ensures LoopStep(server.channel.GetSerializer(), server.handler, errors, old(State())) == Effect(exit, State())
    {
      var ser := server.channel.GetSerializer();
      if !flag.alive {
        return Some(FlagCleared);
      }
      if Blank(server.channel.State().ReadSide().Unread()) {
        UpdateBlocksIffBlank(ser, server.handler, server.channel.State());
        return Some(Blocked);
      }
      var r := server.Update();
      if r.Err? && errors(r.error) {
        flag.alive := false;
        return Some(StoppedByHandler);
      }
      return None;
    }

    /** One pass of the loop inside a run of `rounds` passes that ends in `target`: what
        is left of the run afterwards, or where it ended. */
    method Advance(ghost rounds: nat, ghost target: Effect<Exit, DaemonState>) returns (step: Option<Exit>)
      requires Valid() && flag.alive && rounds > 0
      requires RunEndsIn(server.channel.GetSerializer(), server.handler, errors, State(), rounds, target)
      modifies flag, server.channel.Reader(), server.channel.Writer()
      ensures Valid()
      ensures step.Some? ==> target == Effect(step.value, State())
      ensures step.None? ==> RunEndsIn(server.channel.GetSerializer(), server.handler, errors, State(), rounds - 1, target)
    {
      label Pass:
      step := Iterate();
      if step.Some? {
        RunSpecStopsWithPass(server.channel.GetSerializer(), server.handler, errors, old@Pass(State()), State(), step.value, rounds, target);
      } else {
        RunSpecContinuesAfterPass(server.channel.GetSerializer(), server.handler, errors, old@Pass(State()), State(), rounds, target);
      }
    }

    /** Up to `rounds` passes of the loop, without interference from other threads. */
    method Run(rounds: nat) returns (exit: Exit)
      requires Valid()
      modifies flag, server.channel.Reader(), server.channel.Writer()
      ensures Valid()
      ensures RunEndsIn(server.channel.GetSerializer(), server.handler, errors, old(State()), rounds, Effect(exit, State()))
    {
      var ser := server.channel.GetSerializer();
      var n := rounds;
      ghost var target := RunSpec(ser, server.handler, errors, State(), rounds);
      while true
        invariant Valid()
        invariant RunEndsIn(ser, server.handler, errors, State(), n, target)
        decreases n
      {
        if !flag.alive {
          return FlagCleared;
        }
        if n == 0 {
          return RoundsExhausted;
        }
        var step := Advance(n, target);
        if step.Some? {
          return step.value;
        }
        n := n - 1;
      }
    }
  }

  /** `daemon`: a fresh flag, set, shared by the handle and the thread body. */
  method Launch<M>(channel: OwnedChannel<M>, handler: M -> Option<M>, errors: Error -> bool) returns (d: Daemon, w: Worker<M>)
    ensures fresh(d.flag) && d.IsAlive()
    ensures w.flag == d.flag && w.server == Server.New(channel, handler) && w.errors == errors
  {
    var flag := new LiveFlag();
    d := Daemon(flag);
    w := Worker(Server.New(channel, handler), errors, flag);
  }

  /** Once a `kill` has landed, no further `update` begins: the next pass leaves the
      streams untouched and reports the cleared flag. */
  method KillThenIterate<M>(d: Daemon, w: Worker<M>) returns (exit: Option<Exit>)
    requires w.flag == d.flag && w.Valid()
    modifies d.flag, w.server.channel.Reader(), w.server.channel.Writer()
    ensures exit == Some(FlagCleared) && !d.IsAlive()
    ensures w.server.channel.State() == old(w.server.channel.State())
  {
    d.Kill();
    exit := w.Iterate();
  }
}
