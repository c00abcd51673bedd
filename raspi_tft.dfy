/** Model of raspiTFT.py: a 240x240 TFT screen with two buttons.

    The main loop keeps a mode in the ring [0, 3): button A steps it up,
    button B steps it down, both together clear the screen. After the step
    the mode selects a handler (mode 0 fills the screen, mode 2 clears it,
    mode 1 draws nothing because the Mandelbrot call is commented out).
    Every handler is wrapped by `memfunc_decorator`, which always runs the
    body, then records when the next update is due and pads the call to a
    minimum duration.

    The display, the SPI bus and the buttons are external: a handler body is
    recorded as an entry of `shown`, the time it takes is a parameter, and
    the button levels are parameters of each loop iteration. A button is
    called pressed here when its level reads `True`; the source does not
    say which level the hardware gives for a press. Clock readings are
    whole microseconds. */
module RaspiTft {

  const MICROS_PER_SECOND: int := 1_000_000

  /** The ring the main loop reduces the mode into (`tft.mode % 3`). */
  const MODE_COUNT: int := 3

  /** `@memfunc_decorator(30)` on clear, fill and disp_mandelbrot. */
  const HANDLER_UPDATE_INTERVAL: int := 30 * MICROS_PER_SECOND

  /** The decorator's default `min_time_to_consume=.5`. */
  const MIN_TIME_TO_CONSUME: int := MICROS_PER_SECOND / 2

  /** The three decorated methods of `tft_disp`. */
  datatype Handler = Clear | Fill | DispMandelbrot

  datatype Option<T> = None | Some(value: T)

  /** The levels of button A and button B read in one loop iteration. */
  datatype Buttons = Buttons(a: bool, b: bool)

  /** One iteration's inputs: the buttons, the clock when the iteration
      starts, and how long each handler body called in it takes. */
  datatype Poll = Poll(buttons: Buttons, now: int, pressBody: nat, dispatchBody: nat)

  /** The value a handler's body writes to `backlight`. */
  function BacklightAfter(h: Handler): bool
  {
    h != Clear
  }

  /** The backlight after the handlers `hs` ran, `initial` before them:
      the last body run wrote it. */
  function BacklightAfterAll(initial: bool, hs: seq<Handler>): bool
  {
    if hs == [] then initial else BacklightAfter(hs[|hs| - 1])
  }

  /** The mode after one iteration of the main loop: the button step, then
      the reduction `% 3`. For a positive modulus Python's floor modulo and
      Dafny's Euclidean `%` agree, so a negative mode lands in [0, 3) too. */
  function NextMode(mode: int, a: bool, b: bool): (m: int)
    ensures 0 <= m < MODE_COUNT
    ensures 0 <= mode < MODE_COUNT && a && !b ==> m == (if mode == MODE_COUNT - 1 then 0 else mode + 1)
    ensures 0 <= mode < MODE_COUNT && b && !a ==> m == (if mode == 0 then MODE_COUNT - 1 else mode - 1)
    ensures 0 <= mode < MODE_COUNT && a == b ==> m == mode
  {
    var stepped := if a && b then mode else if a then mode + 1 else if b then mode - 1 else mode;
    stepped % MODE_COUNT
  }

  /** The handler the dispatch after the mode step calls, if any. */
  function Dispatch(mode: int): (h: Option<Handler>)
    ensures h == Some(Fill) <==> mode == 0
    ensures h == Some(Clear) <==> mode == 2
    ensures h == None <==> mode != 0 && mode != 2
    ensures h != Some(DispMandelbrot)
  {
    if mode == 0 then Some(Fill)
    else if mode == 2 then Some(Clear)
    else None
  }

  /** The handlers one loop iteration calls, in order. */
  function TickHandlers(mode: int, a: bool, b: bool): seq<Handler>
  {
    var pressed := if a && b then [Clear] else [];
    match Dispatch(NextMode(mode, a, b))
    case Some(h) => pressed + [h]
    case None => pressed
  }

  /** Pressing both buttons calls `clear` first; the dispatch then adds one
      call unless the new mode is 1. `fill` is called iff the new mode is 0,
      and `disp_mandelbrot` never. */
  lemma TickHandlersCalls(mode: int, a: bool, b: bool)
    ensures var hs := TickHandlers(mode, a, b);
      (a && b ==> hs != [] && hs[0] == Clear) &&
      |hs| == (if a && b then 1 else 0) + (if NextMode(mode, a, b) == 1 then 0 else 1) &&
      (Fill in hs <==> NextMode(mode, a, b) == 0) &&
      DispMandelbrot !in hs
  {
  }

  /** How long a decorated call lasts when its body takes `body`: the
      decorator sleeps only when the body returned early. */
  function PaddedDuration(body: nat): (total: nat)
    ensures total >= MIN_TIME_TO_CONSUME && total >= body
    ensures total == MIN_TIME_TO_CONSUME || total == body
  {
    if body < MIN_TIME_TO_CONSUME then MIN_TIME_TO_CONSUME else body
  }

  /** The mode after the iterations `presses`, the last one last. */
  function ModeAfter(mode: int, presses: seq<Buttons>): (m: int)
    ensures presses != [] ==> 0 <= m < MODE_COUNT
    ensures presses == [] ==> m == mode
  {
    if presses == [] then mode
    else
      var last := presses[|presses| - 1];
      NextMode(ModeAfter(mode, presses[..|presses| - 1]), last.a, last.b)
  }

  /** The handlers the iterations `presses` call, in order. */
  function RunHandlers(mode: int, presses: seq<Buttons>): seq<Handler>
  {
    if presses == [] then []
    else
      var init := presses[..|presses| - 1];
      var last := presses[|presses| - 1];
      RunHandlers(mode, init) + TickHandlers(ModeAfter(mode, init), last.a, last.b)
  }

  /** The button readings of a run of iterations. */
  function ButtonsOf(polls: seq<Poll>): seq<Buttons>
  {
    seq(|polls|, i requires 0 <= i < |polls| => polls[i].buttons)
  }

  /** The clock after the press branch of an iteration: pressing both
      buttons runs a decorated `clear`. */
  function AfterPress(p: Poll): int
  {
    if p.buttons.a && p.buttons.b then p.now + PaddedDuration(p.pressBody) else p.now
  }

  /** The clock when an iteration that starts in `mode` ends. */
  function TickClock(mode: int, p: Poll): int
  {
    if Dispatch(NextMode(mode, p.buttons.a, p.buttons.b)).Some? then AfterPress(p) + PaddedDuration(p.dispatchBody)
    else AfterPress(p)
  }

  /** `time_to_update` after an iteration that starts in `mode` with the
      deadline `deadline`: the last decorated call made sets it. */
  function TickDeadline(mode: int, p: Poll, deadline: int): int
  {
    if Dispatch(NextMode(mode, p.buttons.a, p.buttons.b)).Some? then AfterPress(p) + p.dispatchBody + HANDLER_UPDATE_INTERVAL
    else if p.buttons.a && p.buttons.b then p.now + p.pressBody + HANDLER_UPDATE_INTERVAL
    else deadline
  }

  /** An iteration that calls no handler leaves the deadline alone and ends
      when it starts. One that calls a handler ends after its start, and its
      next update is due 30 s after the last handler body returned, which is
      at most the 0.5 s minimum duration before the iteration ends. */
  lemma TickDeadlineFollowsLastCall(mode: int, p: Poll, deadline: int)
    ensures TickClock(mode, p) >= p.now
    ensures TickHandlers(mode, p.buttons.a, p.buttons.b) == [] ==>
      TickDeadline(mode, p, deadline) == deadline && TickClock(mode, p) == p.now
    ensures TickHandlers(mode, p.buttons.a, p.buttons.b) != [] ==>
      var due := TickDeadline(mode, p, deadline) - HANDLER_UPDATE_INTERVAL;
      p.now <= due <= TickClock(mode, p) <= due + MIN_TIME_TO_CONSUME
  {
  }

  /** `time_to_update` after the iterations `polls`, starting in `mode`
      with the deadline `deadline`. */
  function RunDeadline(mode: int, polls: seq<Poll>, deadline: int): int
  {
    if polls == [] then deadline
    else
      var init := polls[..|polls| - 1];
      TickDeadline(ModeAfter(mode, ButtonsOf(init)), polls[|polls| - 1], RunDeadline(mode, init, deadline))
  }

  /** The clock after the iterations `polls`, starting in `mode` with the
      clock at `clock`: every iteration reads the clock afresh, so only
      the last one decides. */
  function RunClock(mode: int, polls: seq<Poll>, clock: int): int
  {
    if polls == [] then clock
    else TickClock(ModeAfter(mode, ButtonsOf(polls[..|polls| - 1])), polls[|polls| - 1])
  }

  /** A run that calls no handler leaves `time_to_update` where it was: the
      decorator is the only writer of it. */
  lemma {:induction false} RunDeadlineUntouched(mode: int, polls: seq<Poll>, deadline: int)
    requires RunHandlers(mode, ButtonsOf(polls)) == []
    ensures RunDeadline(mode, polls, deadline) == deadline
  {
    if polls != [] {
      var init := polls[..|polls| - 1];
      var last := polls[|polls| - 1];
      assert ButtonsOf(polls)[..|polls| - 1] == ButtonsOf(init);
      assert ButtonsOf(polls)[|polls| - 1] == last.buttons;
      RunDeadlineUntouched(mode, init, deadline);
      TickDeadlineFollowsLastCall(ModeAfter(mode, ButtonsOf(init)), last, deadline);
    }
  }

  /** Extending a run by one iteration. */
  lemma RunStep(mode: int, polls: seq<Poll>, i: nat, deadline: int, clock: int)
    requires i < |polls|
    ensures var m := ModeAfter(mode, ButtonsOf(polls[..i]));
      var p := polls[i];
      ModeAfter(mode, ButtonsOf(polls[..i + 1])) == NextMode(m, p.buttons.a, p.buttons.b) &&
      RunHandlers(mode, ButtonsOf(polls[..i + 1])) ==
        RunHandlers(mode, ButtonsOf(polls[..i])) + TickHandlers(m, p.buttons.a, p.buttons.b) &&
      RunDeadline(mode, polls[..i + 1], deadline) == TickDeadline(m, p, RunDeadline(mode, polls[..i], deadline)) &&
      RunClock(mode, polls[..i + 1], clock) == TickClock(m, p)
  {
    assert polls[..i + 1][..i] == polls[..i];
    assert ButtonsOf(polls[..i + 1])[..i] == ButtonsOf(polls[..i]);
    assert ButtonsOf(polls[..i + 1])[i] == polls[i].buttons;
  }

  /** `n` loop iterations with the same buttons. */
  function Repeat(b: Buttons, n: nat): seq<Buttons>
  {
    seq(n, _ => b)
  }

  /** n iterations with only A pressed move the mode n steps up the ring. */
  lemma {:induction false} OnlyAAdvances(mode: int, n: nat)
    requires 0 <= mode < MODE_COUNT
    ensures ModeAfter(mode, Repeat(Buttons(true, false), n)) == (mode + n) % MODE_COUNT
  {
    if n > 0 {
      var s := Repeat(Buttons(true, false), n);
      assert s[..n - 1] == Repeat(Buttons(true, false), n - 1);
      OnlyAAdvances(mode, n - 1);
    }
  }

  /** n iterations with only B pressed move the mode n steps down the ring,
      wrapping below 0 by floor modulo. */
  lemma {:induction false} OnlyBRetreats(mode: int, n: nat)
    requires 0 <= mode < MODE_COUNT
    ensures ModeAfter(mode, Repeat(Buttons(false, true), n)) == (mode - n) % MODE_COUNT
  {
    if n > 0 {
      var s := Repeat(Buttons(false, true), n);
      assert s[..n - 1] == Repeat(Buttons(false, true), n - 1);
      OnlyBRetreats(mode, n - 1);
    }
  }

  /** Three A-only iterations come back to the starting mode. */
  lemma ThreeAReturn(mode: int)
    requires 0 <= mode < MODE_COUNT
    ensures ModeAfter(mode, Repeat(Buttons(true, false), 3)) == mode
  {
    OnlyAAdvances(mode, 3);
  }

  /** An A-only iteration undoes a B-only one and the other way round. */
  lemma AThenBReturn(mode: int)
    requires 0 <= mode < MODE_COUNT
    ensures ModeAfter(mode, [Buttons(true, false), Buttons(false, true)]) == mode
    ensures ModeAfter(mode, [Buttons(false, true), Buttons(true, false)]) == mode
  {
    var ab := [Buttons(true, false), Buttons(false, true)];
    var ba := [Buttons(false, true), Buttons(true, false)];
    assert ab[..1] == [Buttons(true, false)] && ab[..1][..0] == [];
    assert ba[..1] == [Buttons(false, true)] && ba[..1][..0] == [];
  }

  /** Iterations with both or neither button pressed never move the mode
      once it is in the ring. */
  lemma {:induction false} NoStepKeepsMode(mode: int, presses: seq<Buttons>)
    requires 0 <= mode < MODE_COUNT
    requires forall i :: 0 <= i < |presses| ==> presses[i].a == presses[i].b
    ensures ModeAfter(mode, presses) == mode
  {
    if presses != [] {
      NoStepKeepsMode(mode, presses[..|presses| - 1]);
    }
  }

  /** The `tft_disp` object: the fields the main loop and the decorated
      methods change. `clock` stands for `time.time()`; `shown` lists every
      handler body run so far, in order, in place of the display output. */
  class TftDisp {
    var mode: int
    var timeToUpdate: int
    var backlight: bool
    var clock: int
    var shown: seq<Handler>

    /** After every loop iteration the mode is in the ring. */
    predicate Valid()
      reads this
    {
      0 <= mode < MODE_COUNT
    }

    /** `__init__` at clock reading `now`: mode 0, the next update due now,
        backlight on. */
    constructor (now: int)
      ensures Valid()
      ensures mode == 0 && timeToUpdate == now && backlight
      ensures clock == now && shown == []
    {
      mode := 0;
      timeToUpdate := now;
      backlight := true;
      clock := now;
      shown := [];
    }

    /** The body of a decorated method: it writes `backlight`, draws, and
        takes `body` microseconds. */
    method RunBody(h: Handler, body: nat)
      modifies this
      ensures backlight == BacklightAfter(h)
      ensures shown == old(shown) + [h]
      ensures clock == old(clock) + body
      ensures mode == old(mode) && timeToUpdate == old(timeToUpdate)
    {
      backlight := BacklightAfter(h);
      shown := shown + [h];
      clock := clock + body;
    }

    /** What `memfunc_decorator` does after the body returned, `start`
        being the clock reading taken before the body: the next update is
        due `minTimeInterUpdate` after now, and the call is padded by a
        sleep to last at least `minTimeToConsume`. */
    method FinishDecorated(start: int, minTimeInterUpdate: int, minTimeToConsume: int)
      modifies this
      ensures timeToUpdate == old(clock) + minTimeInterUpdate
      ensures clock - start >= minTimeToConsume && clock >= old(clock)
      ensures clock == old(clock) || clock - start == minTimeToConsume
      ensures old(clock) - start >= minTimeToConsume ==> clock == old(clock)
      ensures mode == old(mode) && backlight == old(backlight) && shown == old(shown)
    {
      timeToUpdate := clock + minTimeInterUpdate;
      var elapsed := clock - start;
      if elapsed < minTimeToConsume {
        clock := clock + (minTimeToConsume - elapsed);
      }
    }

    /** The decorated `clear`: the body always runs, whatever `timeToUpdate` holds. */
    method Clear(body: nat)
      modifies this
      ensures !backlight
      ensures shown == old(shown) + [Handler.Clear]
      ensures timeToUpdate == old(clock) + body + HANDLER_UPDATE_INTERVAL
      ensures clock == old(clock) + PaddedDuration(body)
      ensures mode == old(mode)
    {
      var start := clock;
      RunBody(Handler.Clear, body);
      FinishDecorated(start, HANDLER_UPDATE_INTERVAL, MIN_TIME_TO_CONSUME);
    }

    /** The decorated `fill`. */
    method Fill(body: nat)
      modifies this
      ensures backlight
      ensures shown == old(shown) + [Handler.Fill]
      ensures timeToUpdate == old(clock) + body + HANDLER_UPDATE_INTERVAL
      ensures clock == old(clock) + PaddedDuration(body)
      ensures mode == old(mode)
    {
      var start := clock;
      RunBody(Handler.Fill, body);
      FinishDecorated(start, HANDLER_UPDATE_INTERVAL, MIN_TIME_TO_CONSUME);
    }

    /** The decorated `disp_mandelbrot`; the main loop no longer calls it. */
    method DispMandelbrot(body: nat)
      modifies this
      ensures backlight
      ensures shown == old(shown) + [Handler.DispMandelbrot]
      ensures timeToUpdate == old(clock) + body + HANDLER_UPDATE_INTERVAL
      ensures clock == old(clock) + PaddedDuration(body)
      ensures mode == old(mode)
    {
      var start := clock;
      RunBody(Handler.DispMandelbrot, body);
      FinishDecorated(start, HANDLER_UPDATE_INTERVAL, MIN_TIME_TO_CONSUME);
    }

    /** One iteration of the main loop, from the poll `p`: the clock reads
        `p.now`, then the button step, the reduction into the ring, the
        dispatch. `invoked` lists the handlers it called. */
    method Tick(p: Poll) returns (invoked: seq<Handler>)
      modifies this
      ensures Valid()
      ensures mode == NextMode(old(mode), p.buttons.a, p.buttons.b)
      ensures invoked == TickHandlers(old(mode), p.buttons.a, p.buttons.b)
      ensures shown == old(shown) + invoked
      ensures backlight == BacklightAfterAll(old(backlight), invoked)
      ensures clock == TickClock(old(mode), p)
      ensures timeToUpdate == TickDeadline(old(mode), p, old(timeToUpdate))
    {
      var a, b := p.buttons.a, p.buttons.b;
      clock := p.now;
      invoked := [];
      if a && b {
        Clear(p.pressBody);
        invoked := [Handler.Clear];
      } else if a {
        mode := mode + 1;
      } else if b {
        mode := mode - 1;
      }
      mode := mode % MODE_COUNT;
      if mode == 0 {
        Fill(p.dispatchBody);
        invoked := invoked + [Handler.Fill];
      } else if mode == 2 {
        Clear(p.dispatchBody);
        invoked := invoked + [Handler.Clear];
      }
    }

    /** A loop iteration appended to the handlers `called` of the earlier
        ones, with `before` the record and `light` the backlight before
        those. `Step` and this method are kept as separate methods from one turn
        of `Run`'s loop so that each proof obligation stays small. */
    method TickAfter(p: Poll, called: seq<Handler>, ghost light: bool, ghost before: seq<Handler>)
      returns (total: seq<Handler>)
      requires shown == before + called
      requires backlight == BacklightAfterAll(light, called)
      modifies this
      ensures Valid()
      ensures mode == NextMode(old(mode), p.buttons.a, p.buttons.b)
      ensures total == called + TickHandlers(old(mode), p.buttons.a, p.buttons.b)
      ensures clock == TickClock(old(mode), p)
      ensures timeToUpdate == TickDeadline(old(mode), p, old(timeToUpdate))
      ensures shown == before + total
      ensures backlight == BacklightAfterAll(light, total)
    {
      var invoked := Tick(p);
      total := called + invoked;
      if invoked != [] {
        assert total[|total| - 1] == invoked[|invoked| - 1];
      }
    }

    /** One turn of the `while True` loop, taken as the `i`-th of the polls
        `polls` of a run that started in mode `start` with the backlight
        `light`, the deadline `deadline` and the record `before`, the
        earlier turns having called `called`. `total` extends `called` with
        the handlers this turn calls. The ghost parameters restate `Run`'s
        loop invariant; the turn is a method of its own so that each proof
        obligation stays small. */
    method Step(p: Poll, called: seq<Handler>, ghost polls: seq<Poll>, ghost i: nat, ghost start: int,
                ghost light: bool, ghost deadline: int, ghost clock0: int, ghost before: seq<Handler>)
      returns (total: seq<Handler>)
      requires i < |polls| && polls[i] == p
      requires mode == ModeAfter(start, ButtonsOf(polls[..i]))
      requires called == RunHandlers(start, ButtonsOf(polls[..i]))
      requires timeToUpdate == RunDeadline(start, polls[..i], deadline)
      requires shown == before + called
      requires backlight == BacklightAfterAll(light, called)
      modifies this
      ensures Valid()
      ensures mode == ModeAfter(start, ButtonsOf(polls[..i + 1]))
      ensures total == RunHandlers(start, ButtonsOf(polls[..i + 1]))
      ensures timeToUpdate == RunDeadline(start, polls[..i + 1], deadline)
      ensures clock == RunClock(start, polls[..i + 1], clock0)
      ensures shown == before + total
      ensures backlight == BacklightAfterAll(light, total)
    {
      RunStep(start, polls, i, deadline, clock0);
      total := TickAfter(p, called, light, before);
    }

    /** The `while True` loop run for the iterations `polls`. */
    method Run(polls: seq<Poll>) returns (invoked: seq<Handler>)
      modifies this
      ensures polls != [] ==> Valid()
      ensures mode == ModeAfter(old(mode), ButtonsOf(polls))
      ensures invoked == RunHandlers(old(mode), ButtonsOf(polls))
      ensures shown == old(shown) + invoked
      ensures backlight == BacklightAfterAll(old(backlight), invoked)
      ensures timeToUpdate == RunDeadline(old(mode), polls, old(timeToUpdate))
      ensures clock == RunClock(old(mode), polls, old(clock))
    {
      ghost var start, light, deadline, clock0, before := mode, backlight, timeToUpdate, clock, shown;
      invoked := [];
      var i := 0;
      while i < |polls|
        invariant 0 <= i <= |polls|
        invariant i > 0 ==> Valid()
        invariant mode == ModeAfter(start, ButtonsOf(polls[..i]))
        invariant invoked == RunHandlers(start, ButtonsOf(polls[..i]))
        invariant timeToUpdate == RunDeadline(start, polls[..i], deadline)
        invariant clock == RunClock(start, polls[..i], clock0)
        invariant shown == before + invoked
        invariant backlight == BacklightAfterAll(light, invoked)
      {
        invoked := Step(polls[i], invoked, polls, i, start, light, deadline, clock0, before);
        i := i + 1;
      }
      assert polls[..i] == polls;
    }
  }
}
