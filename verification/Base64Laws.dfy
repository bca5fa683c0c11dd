/** The alphabet of Base64 written out, and the code bit by bit. */
module Base64Laws {
  import opened Arithmetic
  import opened Bits
  import opened Base64

  const ALPHABET := "ABCDEFGHIJKLM" + "NOPQRSTUVWXYZ" + "abcdefghijklm" + "nopqrstuvwxyz" + "0123456789+/"

  lemma DigitIs(v: nat)
    requires v < 64
    ensures |ALPHABET| == 64 && Digit(v) == ALPHABET[v] as nat
  {
    match v
    case 0 => case 1 => case 2 => case 3 => case 4 => case 5 => case 6 => case 7 =>
    case 8 => case 9 => case 10 => case 11 => case 12 => case 13 => case 14 => case 15 =>
    case 16 => case 17 => case 18 => case 19 => case 20 => case 21 => case 22 => case 23 =>
    case 24 => case 25 => case 26 => case 27 => case 28 => case 29 => case 30 => case 31 =>
    case 32 => case 33 => case 34 => case 35 => case 36 => case 37 => case 38 => case 39 =>
    case 40 => case 41 => case 42 => case 43 => case 44 => case 45 => case 46 => case 47 =>
    case 48 => case 49 => case 50 => case 51 => case 52 => case 53 => case 54 => case 55 =>
    case 56 => case 57 => case 58 => case 59 => case 60 => case 61 => case 62 => case 63 =>
  }

  lemma ValueIs(c: nat)
    ensures Value(c) >= 0 ==> c == ALPHABET[Value(c)] as nat
    ensures Value(c) < 0 ==> forall k :: 0 <= k < 64 ==> c != ALPHABET[k] as nat
  {
    if Value(c) >= 0 {
      DigitOfValue(c);
      DigitIs(Value(c));
    } else {
      forall k | 0 <= k < 64 ensures c != ALPHABET[k] as nat {
        DigitIs(k);
      }
    }
  }

  /** The twenty-four bits of three bytes, six at a time from the top; what is missing at the end counts as zeros. */
  lemma EncodeBits(a: Byte, b: Byte, c: Byte, rest: seq<Byte>)
    ensures var n := a * 65536 + b * 256 + c;
            Encode([a, b, c] + rest) ==
            [ALPHABET[n / 262144] as nat, ALPHABET[n / 4096 % 64] as nat, ALPHABET[n / 64 % 64] as nat, ALPHABET[n % 64] as nat] + Encode(rest)
    ensures var n := a * 65536 + b * 256;
            Encode([a, b]) == [ALPHABET[n / 262144] as nat, ALPHABET[n / 4096 % 64] as nat, ALPHABET[n / 64 % 64] as nat, '=' as nat]
    ensures var n := a * 65536;
            Encode([a]) == [ALPHABET[n / 262144] as nat, ALPHABET[n / 4096 % 64] as nat, '=' as nat, '=' as nat]
  {
    hide Quad, ALPHABET;
    var x := [a, b, c] + rest;
    assert x[3..] == rest;
    SixAtATime(a, b, c);
    SixAtATime(a, b, 0);
    SixAtATime(a, 0, 0);
  }

  lemma SixAtATime(a: Byte, b: Byte, c: Byte)
    ensures var n := a * 65536 + b * 256 + c;
            && n / 262144 < 64
            && Quad(a, b, c) ==
               [ALPHABET[n / 262144] as nat, ALPHABET[n / 4096 % 64] as nat, ALPHABET[n / 64 % 64] as nat, ALPHABET[n % 64] as nat]
  {
    hide Quad, ALPHABET;
    QuadDigits(a, b, c);
    Sixes(a, b, c);
  }

  lemma QuadDigits(a: Byte, b: Byte, c: Byte)
    ensures Quad(a, b, c) ==
            [ALPHABET[a / 4] as nat, ALPHABET[a % 4 * 16 + b / 16] as nat, ALPHABET[b % 16 * 4 + c / 64] as nat, ALPHABET[c % 64] as nat]
  {
    hide Digit, ALPHABET;
    DigitIs(0);
    DigitIs(a / 4);
    DigitIs(a % 4 * 16 + b / 16);
    DigitIs(b % 16 * 4 + c / 64);
    DigitIs(c % 64);
  }

  lemma Sixes(a: Byte, b: Byte, c: Byte)
    ensures var n := a * 65536 + b * 256 + c;
            && n / 262144 == a / 4 && n / 4096 % 64 == a % 4 * 16 + b / 16
            && n / 64 % 64 == b % 16 * 4 + c / 64 && n % 64 == c % 64
  {
    var (a1, a0, b1, b0, c1, c0) := (a / 4, a % 4, b / 16, b % 16, c / 64, c % 64);
    assert a == 4 * a1 + a0 && b == 16 * b1 + b0 && c == 64 * c1 + c0;
    DivModUnique(a1, a0 * 65536 + b * 256 + c, 262144);
    DivModUnique(a * 16 + b1, b0 * 256 + c, 4096);
    DivModUnique(a1, a0 * 16 + b1, 64);
    DivModUnique(a * 1024 + b * 4 + c1, c0, 64);
    DivModUnique(a * 16 + b1, b0 * 4 + c1, 64);
  }
}
