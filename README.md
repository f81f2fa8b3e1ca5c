# USB keyboard device: key state, HID report and typing

A model of the state and user-facing logic of Facedancer's emulated USB
keyboard (`USBKeyboardDevice` in `facedancer/devices/keyboard.py`):

- **Keyboard state**: the set of scancodes currently held down and the
  modifier value. A new device starts with neither. `key_down` adds a
  scancode to the set and `key_up` removes one. Removing a scancode that is
  not held fails, as Python's `set.remove` raises `KeyError`.
- **HID report**: `_generate_hid_report` builds the bytes of
  `[modifiers, 0, *active_keys]`, or `[modifiers, 0, 0]` when no key is held.
  The report has variable length, `2 + |active_keys|` bytes (3 when no key is
  held). It has no six-key cap and no zero padding to the 8-byte
  boot-protocol layout. The key bytes come in the order Python iterates the
  set, which is unspecified. The model therefore takes any enumeration of
  the set (`Enumerates`), and `SlotOrderIrrelevant` shows that the choice
  changes only the order of the key bytes. `bytes(...)` rejects a value
  outside 0..255, so scancodes and modifiers are unbounded integers and the
  report is a `Result` whose failure is that range error.
- **Typing**: `type_scancode` presses a key, sleeps, then releases it.
  `type_scancodes`, `type_letters` and `type_string` run it for each input in
  order. Time is taken out of the model: each typing method returns the trace
  of events it performed, `Down(c)`, `Hold(duration)` and `Up(c)`.
  Replaying a trace over a set of held keys gives the state it leads to.
  `KeyboardKeys.get_simple_code` is a keycode table passed in as a
  `map<char, byte>`, and a letter must be in the table.

Modules: `Wrappers` (result types), `KeyboardReport` (report encoder),
`KeyEvents` (event traces and their replay) and `Keyboard` (the device
class and its methods).

The boot keyboard report of the USB HID specification, version 1.11,
Appendix B.1, is a fixed 8-byte report with at most six keys. The code does
not build that report: its report has variable length, and the model follows
the code. The device's own report descriptor (`keyboard.py:50-52`) declares
yet another layout: eight modifier bits, a constant byte and one 8-bit key
slot, a 3-byte input report (`DESCRIBED_REPORT_LENGTH`). The report built by
`_generate_hid_report` has that length exactly when at most one key is held.
With two or more keys held it is longer than the descriptor declares
(`ReportLengthAgainstDescriptor`).

`type_letter` accepts a `duration` argument but does not pass it to
`type_scancode` (`keyboard.py:110-111`). Every letter is therefore held for
the default 0.1 s. `type_letters` and `type_string` also pass their own
`duration` to `type_letter` to no effect. The model keeps this behaviour: the
traces of `TypeLetter`, `TypeLetters` and `TypeString` always hold for
`DEFAULT_DURATION`.

## Model

| member | source | states |
|---|---|---|
| Keyboard.KeyboardDevice.constructor | facedancer/devices/keyboard.py:62-67 | a new device holds no key and its modifier value is 0 |
| KeyboardReport.ToBytes | facedancer/devices/keyboard.py:76 | `bytes(...)` succeeds exactly when every value is in 0..255, and then keeps the values unchanged |
| KeyboardReport.HidReport | facedancer/devices/keyboard.py:70-76 | the report fails exactly when the modifier value or a held key is outside 0..255; otherwise byte 0 is the modifier value and byte 1 is 0; with no key held the report is `[modifiers, 0, 0]`; with keys held it is `2 + |keys|` bytes long, and bytes 2 onward are pairwise distinct, hold exactly the held keys and form a permutation of them |
| KeyboardReport.EnumerationMultiset | facedancer/devices/keyboard.py:75-76 | an iteration order of the key set lists each held key once: it has the set's size and is a permutation of it |
| KeyboardReport.ReportLengthAgainstDescriptor | facedancer/devices/keyboard.py:70-76 | a successful report has the 3-byte length of the device's report descriptor (`keyboard.py:52`) exactly when at most one key is held, and is longer when two or more are held |
| KeyboardReport.SlotOrderIrrelevant | facedancer/devices/keyboard.py:75-76 | two iteration orders of the same set give reports that agree on success, length and the two header bytes, and hold the same bytes |
| Keyboard.KeyboardDevice.GenerateHidReport | facedancer/devices/keyboard.py:70-76 | reads the state and returns the report of the held keys, listed in some iteration order of the set |
| Keyboard.KeyboardDevice.KeyDown | facedancer/devices/keyboard.py:91-92 | the held keys become the old set plus the code; the modifier value is unchanged |
| Keyboard.KeyboardDevice.KeyUp | facedancer/devices/keyboard.py:95-96 | fails with `NotPressed(code)` and changes nothing when the code is not held; otherwise removes just that code; the modifier value is unchanged |
| KeyEvents.Step | facedancer/devices/keyboard.py:91-96 | one `key_down`, wait or `key_up` applied to the held keys: it fails exactly for `Up` of a key not held (`KeyError`); a wait changes nothing; otherwise the event's key is held afterwards exactly when the event is a `Down`, and no other key changes |
| KeyEvents.Replay | facedancer/devices/keyboard.py:91-102 | a trace of key events applied in order, stopping at the first failing `Up`; a key no event names keeps its state, and a trace without `Up` never fails |
| KeyEvents.DownIdempotent | facedancer/devices/keyboard.py:91-92 | pressing a key twice leaves the same state as pressing it once, namely the old keys plus that key |
| KeyEvents.DownUpRestores | facedancer/devices/keyboard.py:91-96 | pressing and then releasing a key that was not held restores the original set of keys |
| KeyEvents.UpOfAbsentKeyFails | facedancer/devices/keyboard.py:95-96 | releasing a key that is not held fails |
| KeyEvents.ReplayAppend | facedancer/devices/keyboard.py:105-107 | replaying two traces one after the other continues the second from the state the first left, and a failure in the first part stops the replay |
| KeyEvents.Tap | facedancer/devices/keyboard.py:99-102 | the trace of `type_scancode`; from any held keys it never fails and ends with the code released and every other key as it was |
| KeyEvents.TapReplay | facedancer/devices/keyboard.py:99-102 | while `type_scancode` holds its key, the key is held; afterwards it is released, even if it was held before, and every other key is unchanged |
| Keyboard.KeyboardDevice.TypeScancode | facedancer/devices/keyboard.py:99-102 | emits `Down(code)`, `Hold(duration)`, `Up(code)`; afterwards the code is not held, every other key and the modifier value are unchanged, and the trace replays to the new state |
| KeyEvents.Taps | facedancer/devices/keyboard.py:105-107 | the trace of `type_scancodes`, three events per code; its contents are fixed by `TapsPrefix` and `TapsAt` |
| KeyEvents.TapsReplay | facedancer/devices/keyboard.py:105-107 | typing a sequence of codes releases every one of them and leaves every other key as it was |
| KeyEvents.TapsPrefix | facedancer/devices/keyboard.py:105-107 | the trace of the first `i` codes is the first `3 * i` events of the whole trace |
| KeyEvents.TapsAt | facedancer/devices/keyboard.py:105-107 | events `3i .. 3i+2` of the trace are exactly the down/hold/up of the `i`-th code, so the taps follow input order and never overlap |
| KeyEvents.TapsDuringHold | facedancer/devices/keyboard.py:105-107 | during the hold of the `i`-th code, that code is held and every earlier code of the sequence has been released |
| Keyboard.PollDuringHold | facedancer/devices/keyboard.py:70-76 | a report read during the hold of the `i`-th code lists that code and none of the earlier codes already released |
| Keyboard.KeyboardDevice.TypeScancodes | facedancer/devices/keyboard.py:105-107 | emits one tap per code in input order; afterwards every typed code is released and the modifier value is unchanged |
| Keyboard.KeyboardDevice.TypeLetter | facedancer/devices/keyboard.py:110-111 | types the table's code for the letter, held for the default duration whatever `duration` is passed |
| Keyboard.KeyboardDevice.TypeLetters | facedancer/devices/keyboard.py:114-116 | emits one default-duration tap per letter's code, in input order; afterwards those codes are released and the modifier value is unchanged |
| Keyboard.KeyboardDevice.TypeString | facedancer/devices/keyboard.py:119-121 | emits one default-duration tap per character's code, in string order; afterwards those codes are released and the modifier value is unchanged |

## Left out

- USB descriptors, the configuration, interface and endpoint classes, and the raw HID class and report descriptor bytes (`keyboard.py:22-52`): these are static configuration for the USB framework.
- The `GET_INTERFACE` stall handler and `handle_data_requested` (`keyboard.py:55-59`, `keyboard.py:80-83`): these are transport I/O. The second only sends what `GenerateHidReport` returns.
- `asyncio.sleep` and timing: each wait is a `Hold(duration)` event. Durations are reals and no clock is modelled.
- Concurrency between typing tasks and host polls, and cancellation: the model runs each operation to completion. A poll sees the state at an event boundary (`PollDuringHold`).
- `KeyboardKeys.get_simple_code`: its lookup table is not part of this model. It is a `map<char, byte>` parameter. Typing a character missing from the table is excluded by a precondition and is not modelled as an error.
- The 8-byte boot-protocol report and its six-key cap: the code implements neither.
- Direct assignment to `modifiers` by callers: the field is public and can be assigned, but no method of the device changes it.
- `default_main` (`keyboard.py:124-125`): it is the command-line entry point.
