/** The keyboard driver (drivers/keyboard.cpp): scancode handling and the event ring, as a
    state value with its operations, and as the object the code updates in place. */
module Keyboard {
  const RING: nat := 64
  const KEYS: nat := 128

  const LEFT_SHIFT: nat := 0x2A
  const RIGHT_SHIFT: nat := 0x36
  const CAPS_LOCK: nat := 0x3A
  const BACKSPACE: nat := 0x0E

  /** Plain and shifted characters by scancode; '\0' where a key has none. */
  datatype Layout = Layout(plain: string, shifted: string)

  const US: Layout := Layout(
    "\0\0" + "1234567890-=" + "\0\0" + "qwertyuiop[]" + "\0\0" + "asdfghjkl;'`" + "\0" + "\\zxcvbnm,./" + "\0*\0 ",
    "\0\0" + "!@#$%^&*()_+" + "\0\0" + "QWERTYUIOP{}" + "\0\0" + "ASDFGHJKL:\"~" + "\0" + "|ZXCVBNM<>?" + "\0*\0 ")

  type Scancode = c: nat | c < 256

  datatype KeyEvent = KeyEvent(ascii: char, scancode: nat, pressed: bool)

  datatype Ring = Ring(slots: seq<KeyEvent>, head: nat, tail: nat, size: nat)

  datatype State = State(ring: Ring, keys: seq<bool>, shiftLeft: bool, shiftRight: bool, capsLock: bool, lastKey: char,
                         layout: Layout)

  function Slot(head: nat, k: nat): nat { (head + k) % RING }

  /** The ring is well formed with n events waiting. */
  ghost predicate RingValid(r: Ring, n: nat) {
    |r.slots| == RING && r.head < RING && r.tail == Slot(r.head, n) && n <= RING
  }

  /** The n events from the head on, oldest first. */
  function Waiting(r: Ring, n: nat): (s: seq<KeyEvent>)
    requires |r.slots| == RING
    ensures |s| == n && forall k :: 0 <= k < n ==> s[k] == r.slots[Slot(r.head, k)]
  {
    seq(n, k requires 0 <= k < n => r.slots[Slot(r.head, k)])
  }

  function Enqueue(r: Ring, ev: KeyEvent): Ring
    requires |r.slots| == RING && r.tail < RING
  {
    if r.size < RING then r.(slots := r.slots[r.tail := ev], tail := (r.tail + 1) % RING, size := r.size + 1) else r
  }

  function Translate(s: State, scancode: nat): char {
    if scancode >= |s.layout.plain| || scancode >= |s.layout.shifted| then '\0'
    else if (s.shiftLeft || s.shiftRight) != s.capsLock then s.layout.shifted[scancode]
    else s.layout.plain[scancode]
  }

  /** What is printed on the keys: `ch` is the character of the key with this code, the upper one
      if `up`; '\0' for keys without a character. */
  predicate KeyTypes(code: nat, up: bool, ch: char) {
    if 0x02 <= code <= 0x0D then ch == (if up then "!@#$%^&*()_+" else "1234567890-=")[code - 0x02]
    else if 0x10 <= code <= 0x1B then ch == (if up then "QWERTYUIOP{}" else "qwertyuiop[]")[code - 0x10]
    else if 0x1E <= code <= 0x29 then ch == (if up then "ASDFGHJKL:\"~" else "asdfghjkl;'`")[code - 0x1E]
    else if 0x2B <= code <= 0x35 then ch == (if up then "|ZXCVBNM<>?" else "\\zxcvbnm,./")[code - 0x2B]
    else if code == 0x37 then ch == '*'
    else if code == 0x39 then ch == ' '
    else ch == '\0'
  }

  /** Where the rows of a character table begin. */
  lemma {:induction false} TableRows(t: string, a: string, r1: string, b: string, r2: string, c: string, r3: string,
                                     d: string, r4: string, e: string, code: nat)
    requires t == a + r1 + b + r2 + c + r3 + d + r4 + e && code < 0x3A
    requires |a| == |b| == |c| == 2 && |r1| == |r2| == |r3| == 12 && |d| == 1 && |r4| == 11 && |e| == 4
    ensures |t| == 0x3A
    ensures t[code] == if code < 0x02 then a[code] else if code < 0x0E then r1[code - 0x02]
                       else if code < 0x10 then b[code - 0x0E] else if code < 0x1C then r2[code - 0x10]
                       else if code < 0x1E then c[code - 0x1C] else if code < 0x2A then r3[code - 0x1E]
                       else if code < 0x2B then d[0] else if code < 0x36 then r4[code - 0x2B] else e[code - 0x36]
  {
  }

  lemma {:induction false} PlainRows(code: nat)
    ensures |US.plain| == 0x3A && (code < 0x3A ==> KeyTypes(code, false, US.plain[code]))
  {
    var r1, r2, r3, r4 := "1234567890-=", "qwertyuiop[]", "asdfghjkl;'`", "\\zxcvbnm,./";
    TableRows(US.plain, "\0\0", r1, "\0\0", r2, "\0\0", r3, "\0", r4, "\0*\0 ", if code < 0x3A then code else 0);
  }

  lemma {:induction false} ShiftedRows(code: nat)
    ensures |US.shifted| == 0x3A && (code < 0x3A ==> KeyTypes(code, true, US.shifted[code]))
  {
    var r1, r2, r3, r4 := "!@#$%^&*()_+", "QWERTYUIOP{}", "ASDFGHJKL:\"~", "|ZXCVBNM<>?";
    TableRows(US.shifted, "\0\0", r1, "\0\0", r2, "\0\0", r3, "\0", r4, "\0*\0 ", if code < 0x3A then code else 0);
  }

  /** The keys of the US layout: upper characters with exactly one of shift and caps lock. */
  lemma {:induction false} KeyCharacters(s: State, code: nat)
    requires s.layout == US
    ensures KeyTypes(code, (s.shiftLeft || s.shiftRight) != s.capsLock, Translate(s, code))
    ensures code == 0x1E ==> Translate(s, code) == if (s.shiftLeft || s.shiftRight) != s.capsLock then 'A' else 'a'
  {
    PlainRows(code);
    ShiftedRows(code);
  }

  /** A key press that is offered to the ring: not a modifier, not backspace. */
  predicate Offers(code: Scancode) {
    code < KEYS && code != LEFT_SHIFT && code != RIGHT_SHIFT && code != CAPS_LOCK && code != BACKSPACE
  }

  function EventOf(s: State, code: Scancode): KeyEvent
    requires Offers(code)
  {
    KeyEvent(Translate(s, code), code, true)
  }

  /** The state after the interrupt handler has seen one scancode byte. */
  function Handle(s: State, code: Scancode): State
    requires |s.ring.slots| == RING && s.ring.tail < RING && |s.keys| == KEYS
  {
    var down := code < KEYS;
    var key := code % KEYS;
    if key == LEFT_SHIFT then s.(shiftLeft := down)
    else if key == RIGHT_SHIFT then s.(shiftRight := down)
    else if key == CAPS_LOCK then s.(capsLock := if down then !s.capsLock else s.capsLock)
    else if key == BACKSPACE then s
    else
      var s1 := s.(keys := s.keys[key := down]);
      if down then s1.(lastKey := Translate(s, key), ring := Enqueue(s.ring, EventOf(s, code))) else s1
  }

  /** Characters that the consumer echoes for a sequence of events. */
  function Echo(evs: seq<KeyEvent>): string {
    if evs == [] then ""
    else Echo(evs[..|evs| - 1]) + EchoOne(evs[|evs| - 1])
  }

  function EchoOne(ev: KeyEvent): string {
    if ev.pressed && ev.ascii != '\0' then [ev.ascii] else ""
  }

  /** `ps` are the positions, in order, of the events whose characters make up the text: exactly
      the presses of keys that have a character. */
  ghost predicate Chosen(ps: seq<nat>, text: string, evs: seq<KeyEvent>) {
    && |ps| == |text| && (forall i, j :: 0 <= i < j < |ps| ==> ps[i] < ps[j])
    && (forall i :: 0 <= i < |ps| ==>
          ps[i] < |evs| && evs[ps[i]].pressed && evs[ps[i]].ascii != '\0' && text[i] == evs[ps[i]].ascii)
    && forall k: nat :: k < |evs| && evs[k].pressed && evs[k].ascii != '\0' ==> k in ps
  }

  ghost predicate Echoes(text: string, evs: seq<KeyEvent>) { exists ps :: Chosen(ps, text, evs) }

  lemma {:induction false} ChosenSkip(ps: seq<nat>, text: string, evs: seq<KeyEvent>, ev: KeyEvent)
    requires Chosen(ps, text, evs) && !(ev.pressed && ev.ascii != '\0')
    ensures Chosen(ps, text, evs + [ev])
  {
    var all := evs + [ev];
    assert forall k :: 0 <= k < |evs| ==> all[k] == evs[k];
  }

  lemma {:induction false} ChosenNext(ps: seq<nat>, text: string, evs: seq<KeyEvent>, ev: KeyEvent)
    requires Chosen(ps, text, evs) && ev.pressed && ev.ascii != '\0'
    ensures Chosen(ps + [|evs|], text + [ev.ascii], evs + [ev])
  {
    var all, qs := evs + [ev], ps + [|evs|];
    assert forall k :: 0 <= k < |evs| ==> all[k] == evs[k];
    forall k: nat | k < |all| && all[k].pressed && all[k].ascii != '\0'
      ensures k in qs
    {
      if k == |evs| { assert qs[|ps|] == k; }
    }
  }

  lemma {:induction false} EchoLast(evs: seq<KeyEvent>)
    requires evs != []
    ensures var before, ev := evs[..|evs| - 1], evs[|evs| - 1];
            Echo(evs) == if ev.pressed && ev.ascii != '\0' then Echo(before) + [ev.ascii] else Echo(before)
  {
  }

  lemma {:induction false} ChosenStep(ps: seq<nat>, evs: seq<KeyEvent>) returns (qs: seq<nat>)
    requires evs != [] && Chosen(ps, Echo(evs[..|evs| - 1]), evs[..|evs| - 1])
    ensures Chosen(qs, Echo(evs), evs)
  {
    var before, ev := evs[..|evs| - 1], evs[|evs| - 1];
    assert before + [ev] == evs;
    EchoLast(evs);
    if ev.pressed && ev.ascii != '\0' {
      ChosenNext(ps, Echo(before), before, ev);
      qs := ps + [|before|];
    } else {
      ChosenSkip(ps, Echo(before), before, ev);
      qs := ps;
    }
  }

  lemma {:induction false} EchoPositions(evs: seq<KeyEvent>) returns (ps: seq<nat>)
    ensures Chosen(ps, Echo(evs), evs)
  {
    if evs == [] {
      ps := [];
    } else {
      var qs := EchoPositions(evs[..|evs| - 1]);
      ps := ChosenStep(qs, evs);
    }
  }

  /** The echo of some events is the text of their characters. */
  lemma {:induction false} EchoIsText(evs: seq<KeyEvent>)
    ensures Echoes(Echo(evs), evs)
  {
    var ps := EchoPositions(evs);
  }

  // ---------------------------------------------------------------- the ring

  lemma {:induction false} SlotsDistinct(head: nat, j: nat, k: nat)
    requires j < RING && k < RING && j != k
    ensures Slot(head, j) != Slot(head, k)
  {
  }

  lemma {:induction false} SlotNext(head: nat, n: nat)
    requires head < RING && n < RING
    ensures (Slot(head, n) + 1) % RING == Slot(head, n + 1)
  {
    var k := head + n;
    assert k % RING == if k < RING then k else k - RING;
    assert (k + 1) % RING == if k + 1 < RING then k + 1 else k + 1 - RING;
  }

  /** Enqueueing appends to the waiting events and overwrites none of them. It needs a free
      slot among those the size field counts, which may lag behind by one. */
  lemma {:induction false} EnqueueAppends(r: Ring, n: nat, ev: KeyEvent)
    requires RingValid(r, n) && n <= r.size < RING
    ensures RingValid(Enqueue(r, ev), n + 1)
    ensures Waiting(Enqueue(r, ev), n + 1) == Waiting(r, n) + [ev]
  {
    var r' := Enqueue(r, ev);
    SlotNext(r.head, n);
    forall k | 0 <= k < n
      ensures r'.slots[Slot(r.head, k)] == r.slots[Slot(r.head, k)]
    {
      SlotsDistinct(r.head, k, n);
    }
  }

  lemma {:induction false} MoveHead(r: Ring, n: nat)
    requires RingValid(r, n) && 0 < n
    ensures var r' := r.(head := (r.head + 1) % RING);
            RingValid(r', n - 1) && Waiting(r, n) == [r.slots[r.head]] + Waiting(r', n - 1)
  {
    var r' := r.(head := (r.head + 1) % RING);
    assert forall k :: 0 <= k < n ==> Slot(r'.head, k) == Slot(r.head, k + 1);
    assert Slot(r.head, 0) == r.head;
  }

  lemma {:induction false} HandlePress(s: State, code: Scancode)
    requires |s.ring.slots| == RING && s.ring.tail < RING && |s.keys| == KEYS && Offers(code)
    ensures Handle(s, code) == s.(keys := s.keys[code := true], lastKey := Translate(s, code),
                                  ring := Enqueue(s.ring, EventOf(s, code)))
  {
  }

  lemma {:induction false} EchoAppend(done: seq<KeyEvent>, ev: KeyEvent)
    ensures Echo(done + [ev]) == Echo(done) + EchoOne(ev)
  {
    assert (done + [ev])[..|done|] == done;
  }

  // ---------------------------------------------------------------- the driver object

  class Driver {
    const keys: array<bool>
    const queue: array<KeyEvent>
    const layout: Layout
    var lastKey: char
    var shiftLeft: bool
    var shiftRight: bool
    var capsLock: bool
    var head: nat
    var tail: nat
    var size: nat

    function Value(): State
      reads this, keys, queue
    {
      State(Ring(queue[..], head, tail, size), keys[..], shiftLeft, shiftRight, capsLock, lastKey, layout)
    }

    /** The waiting events, oldest first. */
    ghost function Queued(): seq<KeyEvent>
      reads this, queue
      requires queue.Length == RING
    {
      Waiting(Ring(queue[..], head, tail, size), size)
    }

    ghost predicate Valid()
      reads this, keys, queue
    {
      keys.Length == KEYS && queue.Length == RING && RingValid(Value().ring, size)
    }

    constructor ()
      ensures Valid() && fresh(keys) && fresh(queue) && size == 0
      ensures layout == US && !shiftLeft && !shiftRight && !capsLock && forall k :: 0 <= k < KEYS ==> !keys[k]
    {
      keys := new bool[KEYS](_ => false);
      queue := new KeyEvent[RING](_ => KeyEvent('\0', 0, false));
      lastKey := '\0';
      layout := US;
      shiftLeft, shiftRight, capsLock := false, false, false;
      head, tail, size := 0, 0, 0;
    }

    method EnqueueEvent(ascii: char, scancode: nat)
      requires Valid()
      modifies `tail, `size, queue
      ensures Valid() && Value() == old(Value()).(ring := Enqueue(old(Value().ring), KeyEvent(ascii, scancode, true)))
    {
      ghost var r := Value().ring;
      if size < RING {
        EnqueueAppends(r, size, KeyEvent(ascii, scancode, true));
        queue[tail] := KeyEvent(ascii, scancode, true);
        tail := (tail + 1) % RING;
        size := size + 1;
      }
    }

    /** The interrupt handler. Backspace leaves the driver's state alone. A press of any key but
        that and the modifiers sets the last key and, while fewer than 64 events wait, queues
        an event that carries its character and its code. */
    method KeyboardHandler(code: Scancode)
      requires Valid()
      modifies this, keys, queue
      ensures Valid() && Value() == Handle(old(Value()), code)
      ensures var press := code < 0x80 && code != 0x2A && code != 0x36 && code != 0x3A && code != 0x0E;
              && Queued() == old(Queued()) + (if press && old(size) < 64 then [KeyEvent(lastKey, code, true)] else [])
              && (press && layout == US ==> KeyTypes(code, (shiftLeft || shiftRight) != capsLock, lastKey))
              && (!press ==> lastKey == old(lastKey))
    {
      HandlerEvent(code);
      var released := code >= 0x80;
      var scancode := code % 0x80;
      if scancode == LEFT_SHIFT {
        shiftLeft := !released;
      } else if scancode == RIGHT_SHIFT {
        shiftRight := !released;
      } else if scancode == CAPS_LOCK {
        if !released { capsLock := !capsLock; }
      } else if scancode != BACKSPACE {
        KeyChange(code);
      }
    }

    lemma {:induction false} HandlerEvent(code: Scancode)
      requires Valid()
      ensures var s := Handle(Value(), code);
              var press := code < 0x80 && code != 0x2A && code != 0x36 && code != 0x3A && code != 0x0E;
              && |s.ring.slots| == RING
              && Waiting(s.ring, s.ring.size)
                 == Queued() + (if press && size < 64 then [KeyEvent(s.lastKey, code, true)] else [])
              && (press && layout == US ==> KeyTypes(code, (s.shiftLeft || s.shiftRight) != s.capsLock, s.lastKey))
              && (!press ==> s.lastKey == lastKey)
    {
      if Offers(code) {
        HandlePress(Value(), code);
        if size < RING { EnqueueAppends(Value().ring, size, EventOf(Value(), code)); }
        if layout == US { KeyCharacters(Value(), code); }
      } else {
        assert Handle(Value(), code).ring == Value().ring;
      }
    }

    /** The default case: any key but the modifiers and backspace. */
    method KeyChange(code: Scancode)
      requires Valid() && (Offers(code) || (code >= KEYS && Offers(code % KEYS)))
      modifies this, keys, queue
      ensures Valid() && Value() == Handle(old(Value()), code)
    {
      var scancode := code % 0x80;
      if code < 0x80 {
        KeyPress(scancode);
      } else {
        keys[scancode] := false;
      }
    }

    method KeyPress(scancode: Scancode)
      requires Valid() && Offers(scancode)
      modifies this, keys, queue
      ensures Valid() && Value() == Handle(old(Value()), scancode)
    {
      HandlePress(Value(), scancode);
      ghost var s := Value();
      var ascii := Translate(Value(), scancode);
      keys[scancode] := true;
      lastKey := ascii;
      assert Value() == s.(keys := s.keys[scancode := true], lastKey := ascii);
      EnqueueEvent(ascii, scancode);
    }

    method DequeueEvent() returns (ok: bool, event: KeyEvent)
      requires Valid()
      modifies `head, `size
      ensures Valid() && ok == (old(size) > 0)
      ensures ok ==> size == old(size) - 1 && old(Queued()) == [event] + Queued()
      ensures !ok ==> Value() == old(Value())
    {
      if size == 0 { return false, KeyEvent('\0', 0, false); }
      ghost var r := Value().ring;
      MoveHead(r, size);
      event := queue[head];
      head := (head + 1) % RING;
      size := size - 1;
      ok := true;
      assert Queued() == Waiting(r.(head := (r.head + 1) % RING), size);
    }

    /** Without interrupts in between, the consumer loop empties the ring and echoes every
        waiting event in order. */
    method ProcessInput() returns (echoed: string)
      requires Valid()
      modifies `head, `size
      ensures Valid() && size == 0 && echoed == Echo(old(Queued())) && Echoes(echoed, old(Queued()))
    {
      ghost var all := Queued();
      ghost var done: seq<KeyEvent> := [];
      echoed := "";
      var ok, event := DequeueEvent();
      while ok
        invariant Valid() && (!ok ==> size == 0)
        invariant all == done + ((if ok then [event] else []) + Queued())
        invariant echoed == Echo(done)
        decreases size, ok
      {
        if event.pressed && event.ascii != '\0' { echoed := echoed + [event.ascii]; }
        EchoAppend(done, event);
        Regroup(done, event, Queued());
        done := done + [event];
        ok, event := DequeueEvent();
      }
      assert all == done;
      EchoIsText(all);
    }
  }

  lemma {:induction false} Regroup(a: seq<KeyEvent>, e: KeyEvent, b: seq<KeyEvent>)
    ensures a + ([e] + b) == (a + [e]) + b
  {
  }
}
