/** 32-bit zone serials and the order of section 3.2 of RFC 1982. */
module SerialNumbers {
  type Serial = x: int | 0 <= x < 0x1_0000_0000

  /** A half-range test: next lies less than half the circle ahead of current. */
  predicate SerialGreater(next: Serial, current: Serial) {
    next != current && (next - current) % 0x1_0000_0000 < 0x8000_0000
  }

  /** Exactly the next half of the circle is ahead of a serial. */
  lemma SerialAhead(current: Serial, steps: nat)
    requires steps < 0x1_0000_0000
    ensures SerialGreater((current + steps) % 0x1_0000_0000, current) <==> 0 < steps < 0x8000_0000
  {
    var next := (current + steps) % 0x1_0000_0000;
    assert next == if current + steps < 0x1_0000_0000 then current + steps else current + steps - 0x1_0000_0000;
    assert (next - current) % 0x1_0000_0000 == steps;
  }

  /** Two serials are ordered one way, except when they are equal or exactly opposite. */
  lemma SerialOrder(a: Serial, b: Serial)
    ensures !(SerialGreater(a, b) && SerialGreater(b, a))
    ensures SerialGreater(a, b) || SerialGreater(b, a) <==> a != b && (a - b) % 0x1_0000_0000 != 0x8000_0000
  {
    if a > b {
      assert (b - a) % 0x1_0000_0000 == 0x1_0000_0000 - (a - b);
    } else if a < b {
      assert (a - b) % 0x1_0000_0000 == 0x1_0000_0000 - (b - a);
    }
  }
}
