/**
 * The state and user-facing API of `USBKeyboardDevice`: the set of pressed
 * scancodes and the modifier value, updated in place by `key_down` and
 * `key_up`, the report the host reads, and the typing operations, whose
 * waits appear as `Hold` events in the trace they return.
 */
module Keyboard {
  import opened Wrappers
  import opened KeyboardReport
  import opened KeyEvents

  /** `set.remove` of a scancode that is not pressed (KeyError). */
  datatype KeyError = NotPressed(code: int)

  /** The letters a trace types, looked up in the keycode table. */
  function LetterCodes(keycodes: map<char, byte>, letters: seq<char>): seq<int>
    requires forall i :: 0 <= i < |letters| ==> letters[i] in keycodes
  {
    seq(|letters|, i requires 0 <= i < |letters| => keycodes[letters[i]] as int)
  }

  /**
   * A poll made while `type_scancodes` holds its `i`-th code reads a report
   * that lists that code and none of the earlier codes of the sequence
   * (those already released), whatever order the set is iterated in.
   */
  lemma PollDuringHold(modifiers: int, keys: set<int>, codes: seq<int>, d: real, i: nat, order: seq<int>)
    requires i < |codes|
    ensures Replay(keys, Taps(codes, d)[..3 * i + 2]).Some?
    ensures var held := Replay(keys, Taps(codes, d)[..3 * i + 2]).value;
            Enumerates(order, held) && HidReport(modifiers, held, order).Success? ==>
              var report := HidReport(modifiers, held, order).value;
              codes[i] in report[2..]
              && forall j :: 0 <= j < i && codes[j] != codes[i] ==> codes[j] !in report[2..]
  {
    TapsDuringHold(keys, codes, d, i);
    var held := (keys - Elements(codes[..i])) + {codes[i]};
    forall j | 0 <= j < i && codes[j] != codes[i]
      ensures codes[j] !in held
    {
      assert codes[..i][j] == codes[j];
    }
  }

  class KeyboardDevice {
    /** The scancodes currently held down. */
    var activeKeys: set<int>
    /** The modifier value sent as the first report byte; callers assign it directly. */
    var modifiers: int

    /** `__post_init__`: nothing pressed, no modifiers. */
    constructor ()
      ensures activeKeys == {} && modifiers == 0
    {
      activeKeys := {};
      modifiers := 0;
    }

    /**
     * `_generate_hid_report`: the report for the current keys, listed in
     * the order iterating over the set yields them.
     */
    method GenerateHidReport() returns (report: Result<seq<byte>, ReportError>)
      ensures exists order :: Enumerates(order, activeKeys) && report == HidReport(modifiers, activeKeys, order)
    {
      var order: seq<int> := [];
      var rest := activeKeys;
      while rest != {}
        invariant rest <= activeKeys
        invariant Enumerates(order, activeKeys - rest)
        decreases rest
      {
        assert exists x :: x in rest by {
          if forall x :: x !in rest {
            assert false;
          }
        }
        var k :| k in rest;
        order := order + [k];
        rest := rest - {k};
      }
      assert activeKeys - rest == activeKeys;
      report := HidReport(modifiers, activeKeys, order);
    }

    /** `key_down`: press `code`; pressing a pressed key changes nothing. */
    method KeyDown(code: int)
      modifies this
      ensures activeKeys == old(activeKeys) + {code}
      ensures modifiers == old(modifiers)
    {
      activeKeys := activeKeys + {code};
    }

    /** `key_up`: release `code`, or fail and change nothing if it is not pressed. */
    method KeyUp(code: int) returns (outcome: Outcome<KeyError>)
      modifies this
      ensures outcome == if code in old(activeKeys) then Pass else Fail(NotPressed(code))
      ensures activeKeys == old(activeKeys) - {code}
      ensures modifiers == old(modifiers)
    {
      if code !in activeKeys {
        return Fail(NotPressed(code));
      }
      activeKeys := activeKeys - {code};
      outcome := Pass;
    }

    /** `type_scancode`: press `code`, wait `duration`, release it. */
    method TypeScancode(code: int, duration: real := DEFAULT_DURATION) returns (trace: seq<Event>)
      modifies this
      ensures trace == Tap(code, duration)
      ensures Replay(old(activeKeys), trace) == Some(activeKeys)
      ensures activeKeys == old(activeKeys) - {code}
      ensures modifiers == old(modifiers)
    {
      KeyDown(code);
      trace := [Down(code), Hold(duration)];
      var released := KeyUp(code);
      assert released == Pass;
      trace := trace + [Up(code)];
      assert trace == Tap(code, duration);
      assert activeKeys == old(activeKeys) + {code} - {code} == old(activeKeys) - {code};
      TapReplay(old(activeKeys), code, duration);
    }

    /** `type_scancodes`: type each code in turn, each released before the next is pressed. */
    method TypeScancodes(codes: seq<int>, duration: real := DEFAULT_DURATION) returns (trace: seq<Event>)
      modifies this
      ensures trace == Taps(codes, duration)
      ensures Replay(old(activeKeys), trace) == Some(activeKeys)
      ensures activeKeys == old(activeKeys) - Elements(codes)
      ensures modifiers == old(modifiers)
    {
      trace := [];
      for i := 0 to |codes|
        invariant trace == Taps(codes[..i], duration)
        invariant activeKeys == old(activeKeys) - Elements(codes[..i])
        invariant modifiers == old(modifiers)
      {
        var tap := TypeScancode(codes[i], duration);
        assert codes[..i + 1][..i] == codes[..i];
        assert Elements(codes[..i + 1]) == Elements(codes[..i]) + {codes[i]};
        trace := trace + tap;
      }
      assert codes[..|codes|] == codes;
      TapsReplay(old(activeKeys), codes, duration);
    }

    /**
     * `type_letter`: type the scancode the keycode table gives `letter`.
     * The `duration` argument is not passed on, so the hold is always the default.
     */
    method TypeLetter(keycodes: map<char, byte>, letter: char, duration: real := DEFAULT_DURATION)
      returns (trace: seq<Event>)
      requires letter in keycodes
      modifies this
      ensures trace == Tap(keycodes[letter], DEFAULT_DURATION)
      ensures activeKeys == old(activeKeys) - {keycodes[letter] as int}
      ensures modifiers == old(modifiers)
    {
      trace := TypeScancode(keycodes[letter]);
    }

    /** `type_letters`: type each letter in turn. */
    method TypeLetters(keycodes: map<char, byte>, letters: seq<char>, duration: real := DEFAULT_DURATION)
      returns (trace: seq<Event>)
      requires forall i :: 0 <= i < |letters| ==> letters[i] in keycodes
      modifies this
      ensures trace == Taps(LetterCodes(keycodes, letters), DEFAULT_DURATION)
      ensures Replay(old(activeKeys), trace) == Some(activeKeys)
      ensures activeKeys == old(activeKeys) - Elements(LetterCodes(keycodes, letters))
      ensures modifiers == old(modifiers)
    {
      ghost var codes := LetterCodes(keycodes, letters);
      trace := [];
      for i := 0 to |letters|
        invariant trace == Taps(codes[..i], DEFAULT_DURATION)
        invariant activeKeys == old(activeKeys) - Elements(codes[..i])
        invariant modifiers == old(modifiers)
      {
        var tap := TypeLetter(keycodes, letters[i], duration);
        assert codes[..i + 1][..i] == codes[..i];
        assert Elements(codes[..i + 1]) == Elements(codes[..i]) + {codes[i]};
        trace := trace + tap;
      }
      assert codes[..|letters|] == codes;
      TapsReplay(old(activeKeys), codes, DEFAULT_DURATION);
    }

    /** `type_string`: type each character of `text` in turn. */
    method TypeString(keycodes: map<char, byte>, text: string, duration: real := DEFAULT_DURATION)
      returns (trace: seq<Event>)
      requires forall i :: 0 <= i < |text| ==> text[i] in keycodes
      modifies this
      ensures trace == Taps(LetterCodes(keycodes, text), DEFAULT_DURATION)
      ensures Replay(old(activeKeys), trace) == Some(activeKeys)
      ensures activeKeys == old(activeKeys) - Elements(LetterCodes(keycodes, text))
      ensures modifiers == old(modifiers)
    {
      ghost var codes := LetterCodes(keycodes, text);
      trace := [];
      for i := 0 to |text|
        invariant trace == Taps(codes[..i], DEFAULT_DURATION)
        invariant activeKeys == old(activeKeys) - Elements(codes[..i])
        invariant modifiers == old(modifiers)
      {
        var tap := TypeLetter(keycodes, text[i], duration);
        assert codes[..i + 1][..i] == codes[..i];
        assert Elements(codes[..i + 1]) == Elements(codes[..i]) + {codes[i]};
        trace := trace + tap;
      }
      assert codes[..|text|] == codes;
      TapsReplay(old(activeKeys), codes, DEFAULT_DURATION);
    }
  }
}
