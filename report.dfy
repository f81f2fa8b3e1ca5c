/**
 * The HID input report built from the keyboard state by
 * `_generate_hid_report`: the modifier byte, a reserved zero byte and one
 * byte per pressed key, or a single zero byte when no key is pressed.
 * The report has no fixed width and no six-key cap.
 */
module KeyboardReport {
  import opened Wrappers

  /** A value `bytes(...)` accepts. */
  predicate IsByte(x: int) {
    0 <= x < 256
  }

  type byte = x: int | IsByte(x)

  /** `bytes(...)` rejects a list holding a value outside 0..255 (ValueError). */
  datatype ReportError = ByteOutOfRange

  predicate Distinct(s: seq<int>) {
    forall i, j :: 0 <= i < j < |s| ==> s[i] != s[j]
  }

  /**
   * `order` lists every element of `keys` exactly once: the order in which
   * iterating over the set yields its elements, which Python leaves unspecified.
   */
  ghost predicate Enumerates(order: seq<int>, keys: set<int>) {
    Distinct(order) && forall x :: x in order <==> x in keys
  }

  /** An enumeration holds each element once, so it is a permutation of the set. */
  lemma {:induction false} EnumerationMultiset(order: seq<int>, keys: set<int>)
    requires Enumerates(order, keys)
    ensures multiset(order) == multiset(keys)
    ensures |order| == |keys|
  {
    if order == [] {
      assert forall x :: x !in keys;
    } else {
      var init, last := order[..|order| - 1], order[|order| - 1];
      assert order == init + [last];
      assert last in keys;
      forall x | x in init ensures x != last {
        var i :| 0 <= i < |init| && init[i] == x;
        assert order[i] == x;
      }
      assert Distinct(init) by {
        forall i, j | 0 <= i < j < |init| ensures init[i] != init[j] {
          assert order[i] == init[i] && order[j] == init[j];
        }
      }
      EnumerationMultiset(init, keys - {last});
      assert keys == (keys - {last}) + {last};
      assert multiset(keys) == multiset(keys - {last}) + multiset{last};
    }
  }

  /** The model of `bytes(values)`: the same values as bytes, or the range error. */
  function ToBytes(values: seq<int>): (r: Result<seq<byte>, ReportError>)
    ensures r.Success? <==> forall i :: 0 <= i < |values| ==> IsByte(values[i])
    ensures r.Success? ==> r.value == values
  {
    if values == [] then Success([])
    else if !IsByte(values[0]) then Failure(ByteOutOfRange)
    else match ToBytes(values[1..])
      case Failure(e) => Failure(e)
      case Success(rest) => Success([values[0] as byte] + rest)
  }

  /**
   * `_generate_hid_report` for a keyboard with modifier value `modifiers`
   * and pressed keys `keys`, whose set iteration yields `order`.
   */
  function HidReport(modifiers: int, keys: set<int>, order: seq<int>): (r: Result<seq<byte>, ReportError>)
    requires Enumerates(order, keys)
    ensures r.Success? <==> IsByte(modifiers) && forall k :: k in keys ==> IsByte(k)
    ensures r.Success? ==> |r.value| >= 3 && r.value[0] == modifiers && r.value[1] == 0
    ensures r.Success? && keys == {} ==> r.value == [modifiers, 0, 0]
    ensures r.Success? && keys != {} ==>
              |r.value| == 2 + |keys| && multiset(r.value[2..]) == multiset(keys)
              && Distinct(r.value[2..]) && forall k :: k in keys <==> k in r.value[2..]
  {
    EnumerationMultiset(order, keys);
    var scancodes := if keys != {} then order else [0];
    var values := [modifiers, 0] + scancodes;
    assert values[2..] == scancodes;
    ToBytes(values)
  }

  /**
   * The input report the device's report descriptor declares, in bytes:
   * eight modifier bits, one constant byte and a single 8-bit key slot.
   */
  const DESCRIBED_REPORT_LENGTH := 3

  /**
   * The report is as long as the descriptor declares exactly when at most
   * one key is held; with two or more keys it is longer.
   */
  lemma ReportLengthAgainstDescriptor(modifiers: int, keys: set<int>, order: seq<int>)
    requires Enumerates(order, keys)
    requires HidReport(modifiers, keys, order).Success?
    ensures |HidReport(modifiers, keys, order).value| == DESCRIBED_REPORT_LENGTH <==> |keys| <= 1
    ensures |keys| >= 2 ==> |HidReport(modifiers, keys, order).value| > DESCRIBED_REPORT_LENGTH
  {
  }

  /**
   * Whatever order the set is iterated in, the reports agree on their
   * length and header and hold the same key bytes.
   */
  lemma SlotOrderIrrelevant(modifiers: int, keys: set<int>, order1: seq<int>, order2: seq<int>)
    requires Enumerates(order1, keys) && Enumerates(order2, keys)
    ensures HidReport(modifiers, keys, order1).Success? == HidReport(modifiers, keys, order2).Success?
    ensures HidReport(modifiers, keys, order1).Success? ==>
              var r1, r2 := HidReport(modifiers, keys, order1).value, HidReport(modifiers, keys, order2).value;
              |r1| == |r2| && r1[..2] == r2[..2] && multiset(r1) == multiset(r2)
  {
    var r1, r2 := HidReport(modifiers, keys, order1), HidReport(modifiers, keys, order2);
    if r1.Success? && keys != {} {
      assert r1.value == r1.value[..2] + r1.value[2..];
      assert r2.value == r2.value[..2] + r2.value[2..];
    }
  }
}
