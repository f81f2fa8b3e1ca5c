/**
 * The typing choreography with time taken out: each operation is a trace
 * of key events, and replaying a trace over a set of pressed keys gives the
 * keyboard state it leads to.
 */
module KeyEvents {
  import opened Wrappers

  /** The hold time, in seconds, `type_scancode` and its callers use by default. */
  const DEFAULT_DURATION: real := 0.1

  /** `key_down(code)`, the `asyncio.sleep(duration)` between, `key_up(code)`. */
  datatype Event = Down(code: int) | Hold(duration: real) | Up(code: int)

  /** `e` presses or releases `k`. */
  predicate Names(e: Event, k: int) {
    !e.Hold? && e.code == k
  }

  /** Some event of `trace` presses or releases `k`. */
  predicate Mentions(trace: seq<Event>, k: int) {
    exists e :: e in trace && Names(e, k)
  }

  /**
   * One event applied to the pressed keys. Only `Up` of a key not pressed
   * fails, as `set.remove` does; otherwise the event's key ends up pressed
   * exactly when the event is a `Down`, and no other key changes.
   */
  function Step(keys: set<int>, e: Event): (r: Option<set<int>>)
    ensures r.None? <==> e.Up? && e.code !in keys
    ensures e.Hold? ==> r == Some(keys)
    ensures r.Some? && !e.Hold? ==>
              (e.code in r.value <==> e.Down?) && r.value - {e.code} == keys - {e.code}
  {
    match e
    case Down(c) => Some(keys + {c})
    case Hold(_) => Some(keys)
    case Up(c) => if c in keys then Some(keys - {c}) else None
  }

  /**
   * The pressed keys after the whole trace, or None if some `Up` fails.
   * A key no event of the trace names keeps its state, and a trace without
   * `Up` events never fails.
   */
  function Replay(keys: set<int>, trace: seq<Event>): (r: Option<set<int>>)
    ensures r.Some? ==> forall k :: !Mentions(trace, k) ==> (k in r.value <==> k in keys)
    ensures (forall e :: e in trace ==> !e.Up?) ==> r.Some?
    decreases |trace|
  {
    if trace == [] then Some(keys)
    else match Step(keys, trace[0])
      case None => None
      case Some(next) => Replay(next, trace[1..])
  }

  /**
   * The trace of `type_scancode(code, duration)`: from any keys it never
   * fails and ends with `code` released and every other key as it was.
   */
  function Tap(code: int, duration: real): (t: seq<Event>)
    ensures forall keys :: Replay(keys, t) == Some(keys - {code})
  {
    assert forall keys :: Replay(keys, [Down(code), Hold(duration), Up(code)]) == Some(keys - {code}) by {
      forall keys {
        TapReplay(keys, code, duration);
      }
    }
    [Down(code), Hold(duration), Up(code)]
  }

  /** One tap per code, in order, each finished before the next begins. */
  function Taps(codes: seq<int>, duration: real): (t: seq<Event>)
    ensures |t| == 3 * |codes|
  {
    if codes == [] then []
    else Taps(codes[..|codes| - 1], duration) + Tap(codes[|codes| - 1], duration)
  }

  function Elements(codes: seq<int>): set<int> {
    set c | c in codes
  }

  /** Replaying a concatenation replays the second part from where the first left off. */
  lemma {:induction false} ReplayAppend(keys: set<int>, a: seq<Event>, b: seq<Event>)
    ensures Replay(keys, a + b) == match Replay(keys, a)
                                   case None => None
                                   case Some(mid) => Replay(mid, b)
    decreases |a|
  {
    if a == [] {
      assert a + b == b;
    } else {
      assert (a + b)[0] == a[0];
      assert (a + b)[1..] == a[1..] + b;
      match Step(keys, a[0])
      case None =>
      case Some(next) => ReplayAppend(next, a[1..], b);
    }
  }

  /** Pressing a key is idempotent. */
  lemma DownIdempotent(keys: set<int>, c: int)
    ensures Replay(keys, [Down(c), Down(c)]) == Replay(keys, [Down(c)]) == Some(keys + {c})
  {
    assert [Down(c), Down(c)][1..] == [Down(c)];
  }

  /** Pressing and then releasing a key that was not pressed restores the state. */
  lemma DownUpRestores(keys: set<int>, c: int)
    requires c !in keys
    ensures Replay(keys, [Down(c), Up(c)]) == Some(keys)
  {
    assert [Down(c), Up(c)][1..] == [Up(c)];
    assert Replay(keys + {c}, [Up(c)]) == Replay(keys + {c} - {c}, []);
    assert keys + {c} - {c} == keys;
  }

  /** Releasing a key that is not pressed fails. */
  lemma UpOfAbsentKeyFails(keys: set<int>, c: int)
    requires c !in keys
    ensures Replay(keys, [Up(c)]) == None
  {
  }

  /**
   * During the hold of `type_scancode` its key is pressed; afterwards it is
   * released, even if it was pressed before, and every other key is as it was.
   */
  lemma TapReplay(keys: set<int>, c: int, d: real)
    ensures Replay(keys, [Down(c), Hold(d)]) == Some(keys + {c})
    ensures Replay(keys, [Down(c), Hold(d), Up(c)]) == Some(keys - {c})
  {
    var held := keys + {c};
    assert [Down(c), Hold(d)][1..] == [Hold(d)];
    assert Replay(held, [Hold(d)]) == Replay(held, []);
    assert [Down(c), Hold(d), Up(c)][1..] == [Hold(d), Up(c)];
    assert [Hold(d), Up(c)][1..] == [Up(c)];
    assert Replay(held, [Hold(d), Up(c)]) == Replay(held, [Up(c)]);
    assert Replay(held, [Up(c)]) == Replay(held - {c}, []);
    assert held - {c} == keys - {c};
  }

  /** Typing a sequence of codes releases every one of them and changes no other key. */
  lemma {:induction false} TapsReplay(keys: set<int>, codes: seq<int>, d: real)
    ensures Replay(keys, Taps(codes, d)) == Some(keys - Elements(codes))
  {
    if codes == [] {
      assert Elements(codes) == {};
      assert keys - {} == keys;
    } else {
      var init, last := codes[..|codes| - 1], codes[|codes| - 1];
      assert codes == init + [last];
      assert Elements(codes) == Elements(init) + {last};
      TapsReplay(keys, init, d);
      ReplayAppend(keys, Taps(init, d), Tap(last, d));
      TapReplay(keys - Elements(init), last, d);
      assert Taps(codes, d) == Taps(init, d) + Tap(last, d);
      assert keys - Elements(init) - {last} == keys - Elements(codes);
    }
  }

  /** The first `i` taps of a trace are the trace of the first `i` codes. */
  lemma {:induction false} TapsPrefix(codes: seq<int>, d: real, i: nat)
    requires i <= |codes|
    ensures Taps(codes, d)[..3 * i] == Taps(codes[..i], d)
  {
    if i < |codes| {
      var init := codes[..|codes| - 1];
      assert init[..i] == codes[..i];
      TapsPrefix(init, d, i);
    } else {
      assert codes[..i] == codes;
    }
  }

  /** The `i`-th group of three events is the tap of the `i`-th code: no two taps overlap. */
  lemma TapsAt(codes: seq<int>, d: real, i: nat)
    requires i < |codes|
    ensures Taps(codes, d)[3 * i..3 * i + 3] == Tap(codes[i], d)
  {
    TapsPrefix(codes, d, i + 1);
    assert codes[..i + 1][..i] == codes[..i];
    assert Taps(codes[..i + 1], d) == Taps(codes[..i], d) + Tap(codes[i], d);
    assert Taps(codes, d)[3 * i..3 * i + 3] == Taps(codes, d)[..3 * i + 3][3 * i..];
  }

  /**
   * While the `i`-th code is held, it is pressed and every earlier code of
   * the sequence has been released; no other key has changed.
   */
  lemma TapsDuringHold(keys: set<int>, codes: seq<int>, d: real, i: nat)
    requires i < |codes|
    ensures Taps(codes, d)[3 * i + 1] == Hold(d)
    ensures Replay(keys, Taps(codes, d)[..3 * i + 2]) == Some((keys - Elements(codes[..i])) + {codes[i]})
  {
    TapsPrefix(codes, d, i);
    TapsAt(codes, d, i);
    var t := Taps(codes, d);
    assert Tap(codes[i], d)[..2] == [Down(codes[i]), Hold(d)];
    assert t[..3 * i + 2] == t[..3 * i] + [Down(codes[i]), Hold(d)];
    ReplayAppend(keys, Taps(codes[..i], d), [Down(codes[i]), Hold(d)]);
    TapsReplay(keys, codes[..i], d);
    TapReplay(keys - Elements(codes[..i]), codes[i], d);
  }
}
