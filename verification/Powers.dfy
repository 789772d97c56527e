/** Powers of natural numbers, shared by the modules that count bits. */
module Powers {

  const TWO64: nat := 0x1_0000_0000_0000_0000

  function Pow(b: nat, e: nat): (p: nat)
    requires b >= 1
    ensures p >= 1
  {
    if e == 0 then 1 else b * Pow(b, e - 1)
  }

  lemma {:induction false} PowAdds(b: nat, x: nat, y: nat)
    requires b >= 1
    ensures Pow(b, x + y) == Pow(b, x) * Pow(b, y)
  {
    if x > 0 {
      PowAdds(b, x - 1, y);
    }
  }

  lemma {:induction false} PowGrows(b: nat, x: nat, y: nat)
    requires b >= 2 && x < y
    ensures b * Pow(b, x) <= Pow(b, y) && Pow(b, x) < Pow(b, y)
  {
    if x + 1 < y {
      PowGrows(b, x, y - 1);
      ProductsOrder(2, b, Pow(b, y - 1));
    }
    ProductsOrder(2, b, Pow(b, x));
  }

  lemma ExponentsOrder(b: nat, x: nat, y: nat)
    requires b >= 2
    ensures Pow(b, x) < Pow(b, y) <==> x < y
  {
    if x < y {
      PowGrows(b, x, y);
    } else if y < x {
      PowGrows(b, y, x);
    }
  }

  lemma ProductsOrder(x: int, y: int, z: int)
    requires z >= 0
    ensures x <= y ==> x * z <= y * z
    ensures x < y && z > 0 ==> x * z < y * z
  {
  }

  lemma Square(b: nat, k: nat, p: nat)
    requires b >= 1 && Pow(b, k) == p
    ensures Pow(b, k + k) == p * p
  {
    PowAdds(b, k, k);
  }

  // In the next two lemmas the exponent is a variable so that the literal is not unfolded.

  lemma TwoToThe8(n: nat)
    requires n == 8
    ensures Pow(2, n) == 256
  {
    var k := n - 8;
    Square(2, k + 1, 2);
    Square(2, k + 2, 4);
    Square(2, k + 4, 16);
  }

  lemma TwoToThe64(n: nat)
    requires n == 64
    ensures Pow(2, n) == TWO64
  {
    var k := n - 64;
    TwoToThe8(k + 8);
    Square(2, k + 8, 0x100);
    Square(2, k + 16, 0x1_0000);
    Square(2, k + 32, 0x1_0000_0000);
  }
}
