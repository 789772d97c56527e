/** Bytes, fixed-width little- and big-endian integers, and lower-case hexadecimal. */
module Bytes {
  import opened Powers
  import opened SeqFacts

  type Byte = b: int | 0 <= b < 256

  function ToLe(n: nat, k: nat): (bs: seq<Byte>)
    ensures |bs| == k
  {
    if k == 0 then [] else [n % 256] + ToLe(n / 256, k - 1)
  }

  function FromLe(bs: seq<Byte>): (n: nat)
    ensures n < Pow(256, |bs|)
  {
    if bs == [] then 0 else bs[0] + 256 * FromLe(bs[1..])
  }

  function ToBe(n: nat, k: nat): (bs: seq<Byte>)
    ensures |bs| == k
  {
    if k == 0 then [] else ToBe(n / 256, k - 1) + [n % 256]
  }

  function FromBe(bs: seq<Byte>): (n: nat)
    ensures n < Pow(256, |bs|)
  {
    if bs == [] then 0 else FromBe(bs[..|bs| - 1]) * 256 + bs[|bs| - 1]
  }

  function Reverse(bs: seq<Byte>): (r: seq<Byte>)
    ensures |r| == |bs|
  {
    if bs == [] then [] else Reverse(bs[1..]) + [bs[0]]
  }

  lemma {:induction false} FromLeInvertsToLe(n: nat, k: nat)
    requires n < Pow(256, k)
    ensures FromLe(ToLe(n, k)) == n
  {
    if k > 0 {
      FromLeInvertsToLe(n / 256, k - 1);
    }
  }

  lemma {:induction false} ToLeInvertsFromLe(bs: seq<Byte>)
    ensures ToLe(FromLe(bs), |bs|) == bs
  {
    if bs != [] {
      ToLeInvertsFromLe(bs[1..]);
      assert FromLe(bs) % 256 == bs[0] && FromLe(bs) / 256 == FromLe(bs[1..]);
    }
  }

  lemma {:induction false} FromBeInvertsToBe(n: nat, k: nat)
    requires n < Pow(256, k)
    ensures FromBe(ToBe(n, k)) == n
  {
    if k > 0 {
      FromBeInvertsToBe(n / 256, k - 1);
    }
  }

  lemma {:induction false} ToBeInvertsFromBe(bs: seq<Byte>)
    ensures ToBe(FromBe(bs), |bs|) == bs
  {
    if bs != [] {
      ToBeInvertsFromBe(bs[..|bs| - 1]);
    }
  }

  lemma DivideTwice(n: nat, p: nat)
    requires p > 0
    ensures n / 256 / p == n / (256 * p)
  {
    var q := n / 256 / p;
    var rest := n / 256 - q * p;
    assert n == 256 * (q * p + rest) + n % 256;
    assert 256 * (q * p) == q * (256 * p);
    QuotientIs(n, 256 * p, q, 256 * rest + n % 256);
  }

  lemma QuotientIs(n: nat, d: nat, q: nat, rest: nat)
    requires 0 <= rest < d && n == q * d + rest
    ensures n / d == q
  {
    var e := n / d - q;
    assert e * d == rest - n % d;
    if e >= 1 { ProductsOrder(1, e, d); }
    if e <= -1 { ProductsOrder(e, -1, d); }
  }

  /** Byte `i` of the little-endian form is the digit of weight `256^i`; big-endian has them the other way round. */
  lemma {:induction false} LeDigit(n: nat, k: nat, i: nat)
    requires i < k
    ensures ToLe(n, k)[i] == n / Pow(256, i) % 256
  {
    if i > 0 {
      LeDigit(n / 256, k - 1, i - 1);
      DivideTwice(n, Pow(256, i - 1));
    }
  }

  lemma {:induction false} BeDigit(n: nat, k: nat, i: nat)
    requires i < k
    ensures ToBe(n, k)[i] == n / Pow(256, k - 1 - i) % 256
  {
    if i < k - 1 {
      BeDigit(n / 256, k - 1, i);
      DivideTwice(n, Pow(256, k - 2 - i));
    }
  }

  /** Big-endian is little-endian read backwards. */
  lemma {:induction false} ToBeIsReversed(n: nat, k: nat)
    ensures ToBe(n, k) == Reverse(ToLe(n, k))
  {
    if k > 0 {
      ToBeIsReversed(n / 256, k - 1);
    }
  }

  lemma {:induction false} ReverseAppends(bs: seq<Byte>, b: Byte)
    ensures Reverse(bs + [b]) == [b] + Reverse(bs)
  {
    if bs != [] {
      ReverseAppends(bs[1..], b);
      assert (bs + [b])[1..] == bs[1..] + [b];
    }
  }

  lemma {:induction false} FromBeIsReversed(bs: seq<Byte>)
    ensures FromBe(bs) == FromLe(Reverse(bs))
  {
    if bs != [] {
      var front, last := bs[..|bs| - 1], bs[|bs| - 1];
      FromBeIsReversed(front);
      ReverseAppends(front, last);
      assert bs == front + [last];
    }
  }

  /** Zeros in front do not change a big-endian number. */
  lemma {:induction false} LeadingZero(bs: seq<Byte>)
    ensures FromBe([0] + bs) == FromBe(bs)
  {
    if bs == [] {
    } else {
      LeadingZero(bs[..|bs| - 1]);
      assert ([0] + bs)[..|bs|] == [0] + bs[..|bs| - 1];
    }
  }

  // ---------------------------------------------------------------------------------------
  // Hexadecimal
  // ---------------------------------------------------------------------------------------

  const HEX_DIGITS := "0123456789abcdef"

  function Digit(d: nat): char
    requires d < 16
  {
    HEX_DIGITS[d]
  }

  function Undigit(c: char): Option<nat> {
    if '0' <= c <= '9' then Some((c - '0') as nat)
    else if 'a' <= c <= 'f' then Some((c - 'a') as nat + 10)
    else None
  }

  /** The last `k` hexadecimal digits of `n`. */
  function Hex(n: nat, k: nat): (s: string)
    ensures |s| == k
  {
    if k == 0 then "" else Hex(n / 16, k - 1) + [Digit(n % 16)]
  }

  function HexBytes(bs: seq<Byte>): (s: string)
    ensures |s| == 2 * |bs|
  {
    if bs == [] then "" else [Digit(bs[0] / 16), Digit(bs[0] % 16)] + HexBytes(bs[1..])
  }

  function UnhexBytes(s: string): Option<seq<Byte>> {
    if s == "" then Some([])
    else if |s| == 1 then None
    else
      match (Undigit(s[0]), Undigit(s[1]), UnhexBytes(s[2..]))
      case (Some(high), Some(low), Some(rest)) =>
        if high < 16 && low < 16 then Some([(16 * high + low) as Byte] + rest) else None
      case _ => None
  }

  lemma UndigitInvertsDigit(d: nat)
    requires d < 16
    ensures Undigit(Digit(d)) == Some(d)
  {
    assert d == 0 || d == 1 || d == 2 || d == 3 || d == 4 || d == 5 || d == 6 || d == 7
        || d == 8 || d == 9 || d == 10 || d == 11 || d == 12 || d == 13 || d == 14 || d == 15;
  }

  /** Byte `i` prints as two digits, the high one first. */
  lemma {:induction false} HexBytesDigits(bs: seq<Byte>, i: nat)
    requires i < |bs|
    ensures HexBytes(bs)[2 * i] == "0123456789abcdef"[bs[i] / 16]
    ensures HexBytes(bs)[2 * i + 1] == "0123456789abcdef"[bs[i] % 16]
  {
    if i > 0 {
      HexBytesDigits(bs[1..], i - 1);
    }
  }

  lemma {:induction false} UnhexInvertsHex(bs: seq<Byte>)
    ensures UnhexBytes(HexBytes(bs)) == Some(bs)
  {
    if bs != [] {
      UnhexInvertsHex(bs[1..]);
      UndigitInvertsDigit(bs[0] / 16);
      UndigitInvertsDigit(bs[0] % 16);
      assert [bs[0]] + bs[1..] == bs;
    }
  }

  lemma HexBytesFirst(b: Byte, rest: seq<Byte>)
    ensures HexBytes([b] + rest) == [Digit(b / 16), Digit(b % 16)] + HexBytes(rest)
  {
    assert ([b] + rest)[1..] == rest;
  }

  lemma HexBytesAppendsFirst(a: seq<Byte>, b: seq<Byte>)
    requires a != [] && HexBytes(a[1..] + b) == HexBytes(a[1..]) + HexBytes(b)
    ensures HexBytes(a + b) == HexBytes(a) + HexBytes(b)
  {
    hide HexBytes, Digit;
    HexBytesFirst(a[0], a[1..]);
    HexBytesFirst(a[0], a[1..] + b);
    assert a == [a[0]] + a[1..];
    assert a + b == [a[0]] + (a[1..] + b);
  }

  lemma {:induction false} HexBytesAppends(a: seq<Byte>, b: seq<Byte>)
    ensures HexBytes(a + b) == HexBytes(a) + HexBytes(b)
  {
    if a == [] {
      assert a + b == b;
    } else {
      HexBytesAppends(a[1..], b);
      HexBytesAppendsFirst(a, b);
    }
  }

  /** Printing a number digit by digit is printing its big-endian bytes. */
  lemma {:induction false} HexOfBigEndian(bs: seq<Byte>)
    ensures Hex(FromBe(bs), 2 * |bs|) == HexBytes(bs)
  {
    if bs != [] {
      var front, last := bs[..|bs| - 1], bs[|bs| - 1];
      HexOfBigEndian(front);
      HexBytesAppends(front, [last]);
      assert bs == front + [last];
      var n := FromBe(bs);
      assert n / 16 / 16 == FromBe(front) && n / 16 % 16 == last / 16 && n % 16 == last % 16;
    }
  }
}
