/** Enough short keys for runs with any number of entries: the numbers up to 2 to the 48, in binary digits. */
module Keys {
  import opened Common

  const KEY_DIGITS := 48
  const KEYS := 0x1_0000_0000_0000

  lemma {:induction false} Pow2Add(m: nat, n: nat)
    ensures Pow2(m + n) == Pow2(m) * Pow2(n)
  {
    if m > 0 {
      Pow2Add(m - 1, n);
    }
  }

  function Digits(n: nat, width: nat): (t: string)
    ensures |t| == width
  {
    if width == 0 then "" else Digits(n / 2, width - 1) + [if n % 2 == 0 then '0' else '1']
  }

  lemma {:induction false} DigitsDiffer(m: nat, n: nat, width: nat)
    requires m < n < Pow2(width)
    ensures Digits(m, width) != Digits(n, width)
  {
    if m / 2 < n / 2 {
      DigitsDiffer(m / 2, n / 2, width - 1);
      assert Digits(m, width)[..width - 1] == Digits(m / 2, width - 1);
      assert Digits(n, width)[..width - 1] == Digits(n / 2, width - 1);
    } else {
      assert Digits(m, width)[width - 1] != Digits(n, width)[width - 1];
    }
  }

  function Key(n: nat): string {
    Digits(n, KEY_DIGITS)
  }

  lemma KeysDiffer(m: nat, n: nat)
    requires m < n < KEYS
    ensures Key(m) != Key(n)
  {
    assert Pow2(2) == 4;
    Pow2Add(2, 2);
    Pow2Add(4, 4);
    Pow2Add(8, 8);
    Pow2Add(16, 16);
    Pow2Add(32, 16);
    DigitsDiffer(m, n, KEY_DIGITS);
  }
}
