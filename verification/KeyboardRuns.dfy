/** The consumer loop of the keyboard driver, one statement at a time, with the interrupt
    handler striking between any two statements. */
module KeyboardRuns {
  import opened Keyboard

  /** The consumer's next statement: test the size, copy the event, advance the head, shrink
      the size, echo; or outside the loop. */
  datatype Pc = Outside | Test | Copy | Advance | Shrink | Print

  /** `accepted` and `delivered` are the history: events that entered the ring, and events
      that the consumer has finished with. */
  datatype System = System(state: State, pc: Pc, local: KeyEvent,
                           accepted: seq<KeyEvent>, delivered: seq<KeyEvent>, screen: string)

  datatype Event = Interrupt(code: Scancode) | Consumer

  /** A key press finds room. */
  predicate Accepts(s: State, code: Scancode) {
    Offers(code) && s.ring.size < RING
  }

  function Apply(s: System, ev: Event): System
    requires |s.state.ring.slots| == RING && s.state.ring.tail < RING && |s.state.keys| == KEYS
    requires s.state.ring.head < RING && (s.pc.Shrink? ==> 0 < s.state.ring.size)
  {
    var r := s.state.ring;
    match ev
    case Interrupt(code) =>
      s.(state := Handle(s.state, code),
         accepted := if Accepts(s.state, code) then s.accepted + [EventOf(s.state, code)] else s.accepted)
    case Consumer =>
      match s.pc
      case Outside => s.(pc := Test)
      case Test => s.(pc := if r.size == 0 then Outside else Copy)
      case Copy => s.(pc := Advance, local := r.slots[r.head])
      case Advance => s.(pc := Shrink, state := s.state.(ring := r.(head := (r.head + 1) % RING)))
      case Shrink => s.(pc := Print, state := s.state.(ring := r.(size := r.size - 1)))
      case Print => s.(pc := Test, screen := s.screen + EchoOne(s.local), delivered := s.delivered + [s.local])
  }

  /** Events still in the ring: one fewer than the size field says while the head has moved
      and the size has not. */
  function InRing(s: System): int {
    s.state.ring.size - if s.pc.Shrink? then 1 else 0
  }

  /** The event that has left the ring but is not delivered yet. */
  function InFlight(s: System): seq<KeyEvent> {
    if s.pc.Shrink? || s.pc.Print? then [s.local] else []
  }

  ghost predicate Inv(s: System) {
    var r, n := s.state.ring, InRing(s);
    && 0 <= n && r.size <= RING && RingValid(r, n) && |s.state.keys| == KEYS
    && ((s.pc.Copy? || s.pc.Advance?) ==> 0 < n)
    && (s.pc.Advance? ==> s.local == r.slots[r.head])
    && s.accepted == s.delivered + InFlight(s) + Waiting(r, n)
    && s.screen == Echo(s.delivered)
  }

  lemma {:induction false} HandleRing(s: State, code: Scancode)
    requires |s.ring.slots| == RING && s.ring.tail < RING && |s.keys| == KEYS
    ensures Handle(s, code).ring == if Offers(code) then Enqueue(s.ring, EventOf(s, code)) else s.ring
    ensures |Handle(s, code).keys| == KEYS
  {
  }

  lemma {:induction false} InterruptStep(s: System, code: Scancode)
    requires Inv(s)
    ensures Inv(Apply(s, Interrupt(code)))
  {
    var r, n := s.state.ring, InRing(s);
    HandleRing(s.state, code);
    if Accepts(s.state, code) {
      AcceptStep(s, r, n, EventOf(s.state, code), Handle(s.state, code));
    } else {
      assert Handle(s.state, code).ring == r;
    }
  }

  lemma {:induction false} AcceptStep(s: System, r: Ring, n: nat, e: KeyEvent, t: State)
    requires Inv(s) && r == s.state.ring && n == InRing(s) && r.size < RING
    requires t.ring == Enqueue(r, e) && |t.keys| == KEYS
    ensures Inv(s.(state := t, accepted := s.accepted + [e]))
  {
    EnqueueAppends(r, n, e);
    var x := s.delivered + InFlight(s);
    assert x + (Waiting(r, n) + [e]) == x + Waiting(r, n) + [e];
    if s.pc.Advance? { SlotsDistinct(r.head, 0, n); }
  }

  lemma {:induction false} ConsumerStep(s: System)
    requires Inv(s)
    ensures Inv(Apply(s, Consumer))
  {
    var r, n := s.state.ring, InRing(s);
    if s.pc.Advance? {
      AdvanceStep(s, r, n);
    } else if s.pc.Shrink? {
      ShrinkStep(s, r, n);
    } else if s.pc.Print? {
      var d := s.delivered + [s.local];
      assert d[..|d| - 1] == s.delivered;
    }
  }

  lemma {:induction false} AdvanceStep(s: System, r: Ring, n: nat)
    requires Inv(s) && s.pc.Advance? && r == s.state.ring && n == InRing(s)
    ensures Inv(Apply(s, Consumer))
  {
    MoveHead(r, n);
    var r' := r.(head := (r.head + 1) % RING);
    var s' := Apply(s, Consumer);
    assert s'.state.ring == r' && InRing(s') == n - 1 && InFlight(s') == [s.local] && InFlight(s) == [];
    Regroup(s.delivered, s.local, Waiting(r', n - 1));
  }

  lemma {:induction false} Regroup(a: seq<KeyEvent>, e: KeyEvent, b: seq<KeyEvent>)
    ensures a + [] + ([e] + b) == a + [e] + b
  {
  }

  lemma {:induction false} ShrinkStep(s: System, r: Ring, n: nat)
    requires Inv(s) && s.pc.Shrink? && r == s.state.ring && n == InRing(s)
    ensures Inv(Apply(s, Consumer))
  {
    assert Waiting(r.(size := r.size - 1), n) == Waiting(r, n);
  }

  function Run(s: System, evs: seq<Event>): (r: System)
    requires Inv(s)
    ensures Inv(r)
    decreases |evs|
  {
    if evs == [] then s
    else
      var before := Run(s, evs[..|evs| - 1]);
      var ev := evs[|evs| - 1];
      StepInv(before, ev);
      Apply(before, ev)
  }

  lemma {:induction false} StepInv(s: System, ev: Event)
    requires Inv(s)
    ensures Inv(Apply(s, ev))
  {
    match ev
    case Interrupt(code) => InterruptStep(s, code);
    case Consumer => ConsumerStep(s);
  }

  ghost predicate Fresh(s: System) {
    && RingValid(s.state.ring, 0) && s.state.ring.size == 0 && |s.state.keys| == KEYS
    && s.pc.Outside? && s.accepted == [] && s.delivered == [] && s.screen == ""
  }

  /** The press that an event adds to the ring, if any. */
  function AcceptedBy(s: State, ev: Event): seq<KeyEvent> {
    if ev.Interrupt? && Accepts(s, ev.code) then [EventOf(s, ev.code)] else []
  }

  /** The presses of a run that found room, in order. */
  function Presses(s: System, evs: seq<Event>): seq<KeyEvent>
    requires Inv(s)
    decreases |evs|
  {
    if evs == [] then []
    else Presses(s, evs[..|evs| - 1]) + AcceptedBy(Run(s, evs[..|evs| - 1]).state, evs[|evs| - 1])
  }

  lemma {:induction false} AcceptedStep(s: System, ev: Event)
    requires Inv(s)
    ensures Apply(s, ev).accepted == s.accepted + AcceptedBy(s.state, ev)
  {
  }

  lemma {:induction false} AcceptedArePresses(s: System, evs: seq<Event>)
    requires Fresh(s) && Inv(s)
    ensures Run(s, evs).accepted == Presses(s, evs)
    decreases |evs|
  {
    if evs != [] {
      var before := evs[..|evs| - 1];
      AcceptedArePresses(s, before);
      AcceptedStep(Run(s, before), evs[|evs| - 1]);
    }
  }

  lemma {:induction false} FreshInv(s: System)
    requires Fresh(s)
    ensures Inv(s)
  {
  }

  /** Under every interleaving: what the consumer has delivered is a prefix, in order, of the
      accepted presses; nothing in between is lost or overwritten, since the rest is exactly
      the event in flight and the events waiting in the ring; `tail` is `head` plus the
      waiting count modulo 64; the screen shows the echo of the delivered events. */
  lemma {:induction false} RunDelivers(s: System, evs: seq<Event>)
    requires Fresh(s)
    ensures Inv(s)
    ensures var r := Run(s, evs);
            var n := InRing(r);
            && 0 <= n <= RING && RingValid(r.state.ring, n)
            && Presses(s, evs) == r.delivered + InFlight(r) + Waiting(r.state.ring, n)
            && r.delivered <= Presses(s, evs)
            && r.screen == Echo(r.delivered) && Echoes(r.screen, r.delivered)
            && (n == 0 && InFlight(r) == [] ==> r.delivered == Presses(s, evs))
  {
    FreshInv(s);
    AcceptedArePresses(s, evs);
    EchoIsText(Run(s, evs).delivered);
  }

  // ---------------------------------------------------------------- the key state

  /** The state after a sequence of scancode bytes. */
  function HandleAll(s: State, codes: seq<Scancode>): (t: State)
    requires |s.ring.slots| == RING && s.ring.tail < RING && |s.keys| == KEYS
    ensures |t.ring.slots| == RING && t.ring.tail < RING && |t.keys| == KEYS
  {
    if codes == [] then s else Handle(HandleAll(s, codes[..|codes| - 1]), codes[|codes| - 1])
  }

  /** Whether the last byte about this key was a press; `before` if there was none. */
  function Held(codes: seq<Scancode>, key: nat, before: bool): bool {
    if codes == [] then before
    else if codes[|codes| - 1] % 0x80 == key then codes[|codes| - 1] < 0x80
    else Held(codes[..|codes| - 1], key, before)
  }

  function PressCount(codes: seq<Scancode>, key: nat): nat {
    if codes == [] then 0 else PressCount(codes[..|codes| - 1], key) + if codes[|codes| - 1] == key then 1 else 0
  }

  predicate Tracked(key: nat) {
    key < KEYS && key != LEFT_SHIFT && key != RIGHT_SHIFT && key != CAPS_LOCK && key != BACKSPACE
  }

  /** After any sequence of scancodes a key reads as pressed exactly if its last byte was a
      press, the shifts likewise, and caps lock has flipped once per press. */
  lemma {:induction false} KeysReflectCodes(s: State, codes: seq<Scancode>, key: nat)
    requires |s.ring.slots| == RING && s.ring.tail < RING && |s.keys| == KEYS && Tracked(key)
    ensures var t := HandleAll(s, codes);
            && t.keys[key] == Held(codes, key, s.keys[key])
            && t.shiftLeft == Held(codes, LEFT_SHIFT, s.shiftLeft)
            && t.shiftRight == Held(codes, RIGHT_SHIFT, s.shiftRight)
            && (t.capsLock <==> s.capsLock == (PressCount(codes, CAPS_LOCK) % 2 == 0))
            && t.layout == s.layout
  {
    if codes != [] {
      KeysReflectCodes(s, codes[..|codes| - 1], key);
      HandleKeys(HandleAll(s, codes[..|codes| - 1]), codes[|codes| - 1], key);
    }
  }

  /** The character of a key pressed after any scancodes: the shifted one exactly if a shift is
      held and caps lock was pressed an even number of times, or none is held and the number is
      odd (from a state with nothing held and caps lock off). */
  lemma {:induction false} CharacterTyped(s: State, codes: seq<Scancode>, code: Scancode)
    requires |s.ring.slots| == RING && s.ring.tail < RING && |s.keys| == KEYS && Offers(code)
    requires !s.shiftLeft && !s.shiftRight && !s.capsLock
    requires code < |s.layout.plain| == |s.layout.shifted|
    ensures var shift := Held(codes, LEFT_SHIFT, false) || Held(codes, RIGHT_SHIFT, false);
            var even := PressCount(codes, CAPS_LOCK) % 2 == 0;
            EventOf(HandleAll(s, codes), code).ascii
              == if shift == even then s.layout.shifted[code] else s.layout.plain[code]
  {
    KeysReflectCodes(s, codes, code);
  }

  lemma {:induction false} HandleKeys(s: State, code: Scancode, key: nat)
    requires |s.ring.slots| == RING && s.ring.tail < RING && |s.keys| == KEYS && Tracked(key)
    ensures var t, down := Handle(s, code), code < KEYS;
            && t.keys[key] == (if code % KEYS == key then down else s.keys[key])
            && t.shiftLeft == (if code % KEYS == LEFT_SHIFT then down else s.shiftLeft)
            && t.shiftRight == (if code % KEYS == RIGHT_SHIFT then down else s.shiftRight)
            && t.capsLock == (if code == CAPS_LOCK then !s.capsLock else s.capsLock)
            && t.layout == s.layout
  {
  }

  /** One past the position of the last byte that offers an event; 0 if none does. */
  function LastOffer(codes: seq<Scancode>): (k: nat)
    ensures k <= |codes| && (0 < k ==> Offers(codes[k - 1])) && forall j :: k <= j < |codes| ==> !Offers(codes[j])
  {
    if codes == [] then 0
    else if Offers(codes[|codes| - 1]) then |codes|
    else LastOffer(codes[..|codes| - 1])
  }

  /** `get_last_key` reports the character that the last offered press had when it came. */
  lemma {:induction false} LastKeyTyped(s: State, codes: seq<Scancode>)
    requires |s.ring.slots| == RING && s.ring.tail < RING && |s.keys| == KEYS
    ensures var k := LastOffer(codes);
            HandleAll(s, codes).lastKey
              == if k == 0 then s.lastKey else EventOf(HandleAll(s, codes[..k - 1]), codes[k - 1]).ascii
  {
    if codes != [] {
      var before := codes[..|codes| - 1];
      LastKeyTyped(s, before);
      LastKeyStep(HandleAll(s, before), codes[|codes| - 1]);
      var k := LastOffer(before);
      if 0 < k { assert before[..k - 1] == codes[..k - 1]; }
    }
  }

  lemma {:induction false} LastKeyStep(s: State, code: Scancode)
    requires |s.ring.slots| == RING && s.ring.tail < RING && |s.keys| == KEYS
    ensures Handle(s, code).lastKey == if Offers(code) then EventOf(s, code).ascii else s.lastKey
  {
  }

  // ---------------------------------------------------------------- which events are delivered

  /** The scancode bytes of a run. */
  function Codes(evs: seq<Event>): seq<Scancode> {
    if evs == [] then []
    else
      var ev := evs[|evs| - 1];
      Codes(evs[..|evs| - 1]) + if ev.Interrupt? then [ev.code] else []
  }

  /** Exactly one of shift and caps lock is on after these bytes: left shift is 0x2A, right shift
      0x36, caps lock 0x3A. */
  predicate Upper(codes: seq<Scancode>) {
    (Held(codes, 0x2A, false) || Held(codes, 0x36, false)) != (PressCount(codes, 0x3A) % 2 == 1)
  }

  /** The driver as its constructor leaves it. */
  ghost predicate Started(s: System) {
    Fresh(s) && s.state.layout == US && !s.state.shiftLeft && !s.state.shiftRight && !s.state.capsLock
  }

  lemma {:induction false} HeldStep(codes: seq<Scancode>, code: Scancode, key: nat)
    ensures Held(codes + [code], key, false) == if code % 0x80 == key then code < 0x80 else Held(codes, key, false)
    ensures PressCount(codes + [code], key) == PressCount(codes, key) + if code == key then 1 else 0
  {
    assert (codes + [code])[..|codes|] == codes;
  }

  lemma {:induction false} CodesLast(evs: seq<Event>)
    requires evs != []
    ensures var before, ev := evs[..|evs| - 1], evs[|evs| - 1];
            Codes(evs) == if ev.Interrupt? then Codes(before) + [ev.code] else Codes(before)
  {
  }

  ghost predicate ModifiersAre(t: State, codes: seq<Scancode>) {
    && t.layout == US && t.shiftLeft == Held(codes, 0x2A, false) && t.shiftRight == Held(codes, 0x36, false)
    && (t.capsLock <==> PressCount(codes, 0x3A) % 2 == 1)
  }

  lemma {:induction false} ModifiersNext(t: State, t': State, codes: seq<Scancode>, code: Scancode)
    requires ModifiersAre(t, codes) && t'.layout == t.layout
    requires t'.shiftLeft == (if code % 0x80 == 0x2A then code < 0x80 else t.shiftLeft)
    requires t'.shiftRight == (if code % 0x80 == 0x36 then code < 0x80 else t.shiftRight)
    requires t'.capsLock == (if code == 0x3A then !t.capsLock else t.capsLock)
    ensures ModifiersAre(t', codes + [code])
  {
    HeldStep(codes, code, 0x2A);
    HeldStep(codes, code, 0x36);
    HeldStep(codes, code, 0x3A);
  }

  /** The consumer does not touch the modifiers, so they reflect the bytes of the run. */
  lemma {:induction false} RunModifiers(s: System, evs: seq<Event>)
    requires Started(s) && Inv(s)
    ensures ModifiersAre(Run(s, evs).state, Codes(evs))
    decreases |evs|
  {
    if evs != [] {
      var before, ev := evs[..|evs| - 1], evs[|evs| - 1];
      RunModifiers(s, before);
      var r := Run(s, before);
      ModifierStep(r, ev);
      CodesLast(evs);
      if ev.Interrupt? { ModifiersNext(r.state, Apply(r, ev).state, Codes(before), ev.code); }
    }
  }

  lemma {:induction false} ModifierStep(s: System, ev: Event)
    requires Inv(s)
    ensures var t, t' := s.state, Apply(s, ev).state;
            && t'.layout == t.layout
            && t'.shiftLeft == (if ev.Interrupt? && ev.code % 0x80 == 0x2A then ev.code < 0x80 else t.shiftLeft)
            && t'.shiftRight == (if ev.Interrupt? && ev.code % 0x80 == 0x36 then ev.code < 0x80 else t.shiftRight)
            && t'.capsLock == (if ev.Interrupt? && ev.code == 0x3A then !t.capsLock else t.capsLock)
  {
  }

  /** A byte is accepted exactly if it is a press of a key other than shift, caps lock and
      backspace while fewer than 64 accepted events are not yet delivered (65 while one of
      them is being echoed, because its slot is free already). */
  predicate Admitted(code: Scancode, accepted: nat, delivered: nat, echoing: bool) {
    && code < 0x80 && code != 0x2A && code != 0x36 && code != 0x3A && code != 0x0E
    && accepted < delivered + if echoing then 65 else 64
  }

  lemma {:induction false} AcceptsIff(s: System, code: Scancode)
    requires Inv(s)
    ensures Accepts(s.state, code) <==> Admitted(code, |s.accepted|, |s.delivered|, s.pc.Print?)
  {
    assert |s.accepted| == |s.delivered| + |InFlight(s)| + InRing(s);
  }

  /** The event is the press reported by byte p of the run: its code, pressed, and the character
      of the key as the bytes before it say. */
  ghost predicate Reports(ev: KeyEvent, evs: seq<Event>, p: nat)
    requires p < |evs|
  {
    && evs[p].Interrupt? && ev.scancode == evs[p].code && ev.pressed
    && KeyTypes(evs[p].code, Upper(Codes(evs[..p])), ev.ascii)
  }

  /** Byte p of the run finds the ring ready for it. */
  ghost predicate AdmittedAt(s: System, evs: seq<Event>, p: nat)
    requires Inv(s) && p < |evs|
  {
    var r := Run(s, evs[..p]);
    evs[p].Interrupt? && Admitted(evs[p].code, |r.accepted|, |r.delivered|, r.pc.Print?)
  }

  predicate Increasing(ps: seq<nat>) { forall i, j :: 0 <= i < j < |ps| ==> ps[i] < ps[j] }

  /** The events report the bytes at these positions, one for one. */
  ghost predicate ReportAt(xs: seq<KeyEvent>, evs: seq<Event>, ps: seq<nat>) {
    |ps| == |xs| && forall i :: 0 <= i < |ps| ==> ps[i] < |evs| && Reports(xs[i], evs, ps[i])
  }

  /** These are the positions of all accepted bytes. */
  ghost predicate ExactlyAdmitted(s: System, evs: seq<Event>, ps: seq<nat>)
    requires Inv(s)
  {
    forall p: nat :: p < |evs| ==> (p in ps <==> AdmittedAt(s, evs, p))
  }

  /** `ps` are the positions of the accepted bytes, in order, and the accepted events report them. */
  ghost predicate AcceptedAt(s: System, evs: seq<Event>, ps: seq<nat>)
    requires Inv(s)
  {
    Increasing(ps) && ReportAt(Presses(s, evs), evs, ps) && ExactlyAdmitted(s, evs, ps)
  }

  lemma {:induction false} PressReports(s: System, evs: seq<Event>, code: Scancode)
    requires Started(s) && Inv(s) && Offers(code)
    ensures Reports(EventOf(Run(s, evs).state, code), evs + [Interrupt(code)], |evs|)
  {
    RunModifiers(s, evs);
    KeyCharacters(Run(s, evs).state, code);
    assert (evs + [Interrupt(code)])[..|evs|] == evs;
  }

  /** Whether a byte was admitted does not depend on what comes later. */
  lemma {:induction false} LongerRun(s: System, before: seq<Event>, ev: Event, p: nat)
    requires Inv(s) && p < |before|
    ensures AdmittedAt(s, before + [ev], p) <==> AdmittedAt(s, before, p)
  {
    assert (before + [ev])[..p] == before[..p];
  }

  lemma {:induction false} AcceptedPositions(s: System, evs: seq<Event>) returns (ps: seq<nat>)
    requires Started(s) && Inv(s)
    ensures AcceptedAt(s, evs, ps)
    decreases |evs|
  {
    if evs == [] {
      ps := [];
    } else {
      var before, ev, n := evs[..|evs| - 1], evs[|evs| - 1], |evs| - 1;
      assert before + [ev] == evs;
      var qs := AcceptedPositions(s, before);
      ps := PositionsStep(s, before, ev, qs);
    }
  }

  lemma {:induction false} PressesNext(s: System, before: seq<Event>, ev: Event)
    requires Inv(s)
    ensures Presses(s, before + [ev]) == Presses(s, before) + AcceptedBy(Run(s, before).state, ev)
  {
    assert (before + [ev])[..|before|] == before;
  }

  /** The last byte of a run is accepted exactly if it is admitted, and its event reports it. */
  lemma {:induction false} LastPosition(s: System, before: seq<Event>, ev: Event)
    requires Started(s) && Inv(s)
    ensures var add := AcceptedBy(Run(s, before).state, ev);
            && (AdmittedAt(s, before + [ev], |before|) <==> |add| == 1) && |add| <= 1
            && (add != [] ==> Reports(add[0], before + [ev], |before|))
  {
    assert (before + [ev])[..|before|] == before;
    if ev.Interrupt? {
      AcceptsIff(Run(s, before), ev.code);
      if Offers(ev.code) { PressReports(s, before, ev.code); }
    }
  }

  function More(ps: seq<nat>, n: nat, last: bool): seq<nat> { if last then ps + [n] else ps }

  lemma {:induction false} ReportMore(xs: seq<KeyEvent>, before: seq<Event>, ps: seq<nat>, ev: Event,
                                      add: seq<KeyEvent>)
    requires ReportAt(xs, before, ps) && Increasing(ps) && |add| <= 1
    requires add != [] ==> Reports(add[0], before + [ev], |before|)
    ensures Increasing(More(ps, |before|, add != []))
    ensures ReportAt(xs + add, before + [ev], More(ps, |before|, add != []))
  {
    var ps', xs' := More(ps, |before|, add != []), xs + add;
    forall i | 0 <= i < |ps'|
      ensures ps'[i] < |before + [ev]| && Reports(xs'[i], before + [ev], ps'[i])
    {
      if i < |ps| { assert (before + [ev])[..ps[i]] == before[..ps[i]]; }
    }
  }

  lemma {:induction false} AdmittedMore(s: System, before: seq<Event>, ps: seq<nat>, ev: Event, last: bool)
    requires Inv(s) && ExactlyAdmitted(s, before, ps) && (forall i :: 0 <= i < |ps| ==> ps[i] < |before|)
    requires last <==> AdmittedAt(s, before + [ev], |before|)
    ensures ExactlyAdmitted(s, before + [ev], More(ps, |before|, last))
  {
    forall p: nat | p < |before + [ev]|
      ensures p in More(ps, |before|, last) <==> AdmittedAt(s, before + [ev], p)
    {
      if p < |before| { LongerRun(s, before, ev, p); }
    }
  }

  lemma {:induction false} ReportInside(xs: seq<KeyEvent>, evs: seq<Event>, ps: seq<nat>)
    requires ReportAt(xs, evs, ps)
    ensures forall i :: 0 <= i < |ps| ==> ps[i] < |evs|
  {
  }

  lemma {:induction false} PositionsStep(s: System, before: seq<Event>, ev: Event, qs: seq<nat>) returns (ps: seq<nat>)
    requires Started(s) && Inv(s) && AcceptedAt(s, before, qs)
    ensures AcceptedAt(s, before + [ev], ps)
  {
    var add := AcceptedBy(Run(s, before).state, ev);
    PressesNext(s, before, ev);
    LastPosition(s, before, ev);
    ReportInside(Presses(s, before), before, qs);
    ReportMore(Presses(s, before), before, qs, ev, add);
    AdmittedMore(s, before, qs, ev, add != []);
    ps := More(qs, |before|, add != []);
  }

  /** Under every interleaving, from a driver as constructed: the i-th event delivered reports the
      i-th accepted byte, with its code and the character that the bytes before it give the key;
      a byte is accepted exactly if it is a press of an ordinary key and the ring has room; and
      the screen shows the characters of the delivered events, in order, skipping keys that
      have none. */
  lemma {:induction false} RunDeliversCodes(s: System, evs: seq<Event>) returns (ps: seq<nat>)
    requires Started(s)
    ensures Inv(s)
    ensures var r := Run(s, evs);
            && |r.delivered| <= |ps| == |r.accepted|
            && Increasing(ps)
            && (forall i :: 0 <= i < |r.delivered| ==> ps[i] < |evs| && Reports(r.delivered[i], evs, ps[i]))
            && (forall p: nat :: p < |evs| ==> (p in ps <==> AdmittedAt(s, evs, p)))
            && Echoes(r.screen, r.delivered)
  {
    RunDelivers(s, evs);
    AcceptedArePresses(s, evs);
    ps := AcceptedPositions(s, evs);
  }

  // ---------------------------------------------------------------- the indivisible decrement

  /** `queue_size--` taken apart: the size is read before the interrupt and stored after it. */
  function TornShrink(s: System, code: Scancode): System
    requires Inv(s) && s.pc.Shrink?
  {
    var seen := s.state.ring.size;
    var s1 := Apply(s, Interrupt(code));
    s1.(pc := Print, state := s1.state.(ring := s1.state.ring.(size := seen - 1)))
  }

  lemma {:induction false} TornLoses(s: System, code: Scancode)
    requires Inv(s) && s.pc.Shrink? && Accepts(s.state, code)
    ensures !Inv(TornShrink(s, code))
  {
    var t, n := TornShrink(s, code), InRing(s);
    assert |s.accepted| == |s.delivered| + 1 + n;
    assert |t.accepted| == |s.accepted| + 1 && t.delivered == s.delivered && InRing(t) == n;
    assert Inv(t) ==> |t.accepted| == |t.delivered| + 1 + n;
  }

  lemma {:induction false} TornHarmless(s: System, code: Scancode)
    requires Inv(s) && s.pc.Shrink? && !Accepts(s.state, code)
    ensures Inv(TornShrink(s, code))
  {
    var n := InRing(s);
    HandleRing(s.state, code);
    assert Handle(s.state, code).ring == s.state.ring;
    assert Waiting(s.state.ring.(size := n), n) == Waiting(s.state.ring, n);
  }

  /** The guarantee rests on the decrement being one step: a torn one keeps the invariant
      exactly when the interrupt in the middle accepts nothing. */
  lemma {:induction false} TornShrinkIff(s: System, code: Scancode)
    requires Inv(s) && s.pc.Shrink?
    ensures Inv(TornShrink(s, code)) <==> !Accepts(s.state, code)
  {
    if Accepts(s.state, code) { TornLoses(s, code); } else { TornHarmless(s, code); }
  }
}
