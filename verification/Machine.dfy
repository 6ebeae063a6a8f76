/** 32-bit signed integers: checked by the verifier where the program uses plain operators,
    wrapped explicitly where it uses the wrapping ones. */
module Machine {
  import opened Modular

  const TWO_32: int := 0x1_0000_0000

  newtype i32 = x: int | -0x8000_0000 <= x < 0x8000_0000

  /** The signed 32-bit number congruent to x modulo 2^32. */
  function Wrap(x: int): (w: i32)
    ensures (w as int - x) % TWO_32 == 0
  {
    var w := (x + 0x8000_0000) % TWO_32 - 0x8000_0000;
    assert w == x + -((x + 0x8000_0000) / TWO_32) * TWO_32;
    AddMultiple(0, -((x + 0x8000_0000) / TWO_32), TWO_32);
    w as i32
  }

  lemma WrapsAgree(x: int, y: int)
    ensures Wrap(x) == Wrap(y) <==> (x - y) % TWO_32 == 0
  {
    SameRemainder(x + 0x8000_0000, y + 0x8000_0000, TWO_32);
  }

  /** Wrapping early does not matter under a linear step. */
  lemma WrapUnderStep(x: int, k: int, c: int)
    ensures Wrap(Wrap(x) as int * k + c) == Wrap(x * k + c)
  {
    var d := (Wrap(x) as int - x) / TWO_32;
    assert Wrap(x) as int == x + d * TWO_32;
    assert (Wrap(x) as int * k + c) - (x * k + c) == 0 + (d * k) * TWO_32 by {
      assert (d * TWO_32) * k == (d * k) * TWO_32;
    }
    AddMultiple(0, d * k, TWO_32);
    WrapsAgree(Wrap(x) as int * k + c, x * k + c);
  }

  function WrappingShl5(x: i32): i32 {
    Wrap(x as int * 32)
  }

  function WrappingSub(x: i32, y: i32): i32 {
    Wrap(x as int - y as int)
  }

  function WrappingAdd(x: i32, y: i32): i32 {
    Wrap(x as int + y as int)
  }

  /** The remainder operator of the source language truncates toward zero. */
  function Rem(x: i32, y: i32): i32
    requires y > 0
  {
    if x >= 0 then x % y else -(((-(x as int)) % y as int) as i32)
  }
}
