/**
 * `keys()`: the six touch pads read in a fixed order and packed into one
 * integer, the first pad read landing in the highest bit. The masks `K_*`
 * name the bit each pad ends up in. The pad readings are a parameter here;
 * reading the hardware is not modelled.
 */
module Keys {
  datatype Key = Up | Down | Left | Right | O | X

  /** 2 to the power n. */
  function Pow2(n: nat): (r: nat)
    ensures r >= 1
  {
    if n == 0 then 1 else 2 * Pow2(n - 1)
  }

  /** Bit k of n, counting from the least-significant bit. */
  function Bit(n: nat, k: nat): bool {
    if k == 0 then n % 2 == 1 else Bit(n / 2, k - 1)
  }

  /** The bit position of each key: `K_UP` is bit 0 up to `K_X`, bit 5. */
  function Position(k: Key): (b: nat)
    ensures b < 6
  {
    match k
    case Up => 0
    case Down => 1
    case Left => 2
    case Right => 3
    case O => 4
    case X => 5
  }

  /** The constants `K_UP` (0x01) to `K_X` (0x20). */
  function Mask(k: Key): (m: nat)
    ensures m == Pow2(Position(k))
  {
    match k
    case Up => 0x01
    case Down => 0x02
    case Left => 0x04
    case Right => 0x08
    case O => 0x10
    case X => 0x20
  }

  /** The order in which the pads are created, and so read: X, O, right, left, down, up. */
  const PADS: seq<Key> := [X, O, Right, Left, Down, Up]

  /**
   * The packed value of the readings `touch`, read in order: each reading
   * shifts what came before up by one bit and lands in bit 0. Since the
   * shift leaves bit 0 clear, `keys |= value` is an addition.
   */
  function Pack(touch: seq<bool>): (keys: nat)
    ensures touch == [] ==> keys == 0
    // the reading taken last lands in bit 0
    ensures touch != [] ==> Bit(keys, 0) == touch[|touch| - 1]
  {
    if touch == [] then 0
    else Pack(touch[..|touch| - 1]) * 2 + (if touch[|touch| - 1] then 1 else 0)
  }

  /** `keys()` on the readings `touch`. */
  method ReadKeys(touch: seq<bool>) returns (keys: nat)
    ensures keys == Pack(touch)
  {
    keys := 0;
    for i := 0 to |touch|
      invariant keys == Pack(touch[..i])
    {
      assert touch[..i + 1][..i] == touch[..i];
      keys := keys * 2;
      keys := keys + if touch[i] then 1 else 0;
    }
    assert touch[..|touch|] == touch;
  }

  /** n readings pack into n bits. */
  lemma {:induction false} PackBound(touch: seq<bool>)
    ensures Pack(touch) < Pow2(|touch|)
  {
    if touch != [] {
      PackBound(touch[..|touch| - 1]);
    }
  }

  /** Reading i of n lands in bit n - 1 - i, and every higher bit is clear. */
  lemma {:induction false} PackBit(touch: seq<bool>, i: nat)
    requires i < |touch|
    ensures Bit(Pack(touch), |touch| - 1 - i) == touch[i]
  {
    var init := touch[..|touch| - 1];
    var last := if touch[|touch| - 1] then 1 else 0;
    assert (Pack(init) * 2 + last) / 2 == Pack(init);
    if i < |touch| - 1 {
      PackBit(init, i);
      assert init[i] == touch[i];
    }
  }

  /** No bit at or above n is set in a value below 2 to the power n. */
  lemma {:induction false} HighBitsClear(v: nat, n: nat, k: nat)
    requires v < Pow2(n) && n <= k
    ensures !Bit(v, k)
  {
    if k > 0 {
      if n > 0 {
        HighBitsClear(v / 2, n - 1, k - 1);
      } else {
        assert v == 0;
        HighBitsClear(0, 0, k - 1);
      }
    }
  }

  /**
   * With the six pads read in the order X, O, right, left, down, up, the
   * value returned has the pad's `K_*` bit set exactly when that pad is
   * touched, and nothing above bit 5.
   */
  lemma KeysMatchConstants(touch: seq<bool>)
    requires |touch| == |PADS|
    ensures Pack(touch) < 0x40
    ensures forall i :: 0 <= i < |PADS| ==> (Bit(Pack(touch), Position(PADS[i])) <==> touch[i])
    ensures forall k :: k >= 6 ==> !Bit(Pack(touch), k)
  {
    PackBound(touch);
    assert Pow2(6) == 0x40;
    forall i | 0 <= i < |PADS|
      ensures Bit(Pack(touch), Position(PADS[i])) <==> touch[i]
    {
      PackBit(touch, i);
    }
    forall k | k >= 6
      ensures !Bit(Pack(touch), k)
    {
      HighBitsClear(Pack(touch), 6, k);
    }
  }

  /** The masks are six distinct single bits that together fill the low six bits. */
  lemma MasksAreDistinctBits()
    ensures forall a: Key, b: Key :: a != b ==> Position(a) != Position(b)
    ensures Mask(Up) + Mask(Down) + Mask(Left) + Mask(Right) + Mask(O) + Mask(X) == 0x3F
  {
  }
}
