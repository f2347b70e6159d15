/** Crockford base 32: fixed-width encoding, decoding, and the agreement of text and number order. */
module Base32 {
  import opened Orders
  import opened Powers

  const ALPHABET := "0123456789ABCDEFGHJKMNPQRSTVWXYZ"

  function Char(d: nat): char
    requires d < 32
  {
    ALPHABET[d]
  }

  /** The last `k` base-32 digits of `n`, most significant first. */
  function Encode(n: nat, k: nat): (s: string)
    ensures |s| == k
  {
    if k == 0 then "" else Encode(n / 32, k - 1) + [Char(n % 32)]
  }

  predicate Valid(c: char) {
    exists d :: 0 <= d < 32 && Char(d) == c
  }

  function DigitFrom(c: char, d: nat): (r: nat)
    requires d < 32 && exists e :: d <= e < 32 && Char(e) == c
    ensures r < 32 && Char(r) == c
    decreases 32 - d
  {
    if Char(d) == c then d else DigitFrom(c, d + 1)
  }

  /** The decoding table. */
  function Digit(c: char): (d: nat)
    requires Valid(c)
    ensures d < 32 && Char(d) == c
  {
    DigitFrom(c, 0)
  }

  ghost function Value(s: string): nat
    requires forall i :: 0 <= i < |s| ==> Valid(s[i])
  {
    if s == "" then 0 else 32 * Value(s[..|s| - 1]) + Digit(s[|s| - 1])
  }

  lemma AlphabetAscends(i: nat, j: nat)
    requires i < j < 32
    ensures Char(i) < Char(j)
  {}

  lemma {:induction false} EncodeValid(n: nat, k: nat)
    ensures forall i :: 0 <= i < k ==> Valid(Encode(n, k)[i])
  {
    if k > 0 {
      EncodeValid(n / 32, k - 1);
      assert Valid(Char(n % 32));
    }
  }

  lemma DigitOf(d: nat)
    requires d < 32
    ensures Valid(Char(d)) && Digit(Char(d)) == d
  {
    assert Valid(Char(d));
    var e := Digit(Char(d));
    if e < d { AlphabetAscends(e, d); } else if d < e { AlphabetAscends(d, e); }
  }

  /** Decoding gives back every number that fits. */
  lemma {:induction false} ValueEncode(n: nat, k: nat)
    requires n < Pow32(k)
    ensures forall i :: 0 <= i < k ==> Valid(Encode(n, k)[i])
    ensures Value(Encode(n, k)) == n
    decreases k
  {
    EncodeValid(n, k);
    if k > 0 {
      ValueEncode(n / 32, k - 1);
      DigitOf(n % 32);
      var s := Encode(n, k);
      assert s[..|s| - 1] == Encode(n / 32, k - 1);
    }
  }

  /** `n >> 5 * j`. */
  ghost function Shift(n: nat, j: nat): nat {
    if j == 0 then n else Shift(n / 32, j - 1)
  }

  /** The leading digits encode the leading bits. */
  lemma {:induction false} EncodePrefix(n: nat, k: nat, j: nat)
    ensures Encode(n, k + j)[..k] == Encode(Shift(n, j), k)
    decreases j
  {
    if j == 0 {
      assert Encode(n, k)[..k] == Encode(n, k);
    } else {
      EncodePrefix(n / 32, k, j - 1);
      assert Encode(n, k + j)[..k] == Encode(n / 32, k + j - 1)[..k];
    }
  }

  lemma {:induction false} ShiftPacked(t: nat, e: nat, j: nat)
    requires e < Pow32(j)
    ensures Shift(t * Pow32(j) + e, j) == t
    decreases j
  {
    if j > 0 {
      var p := Pow32(j - 1);
      assert t * (32 * p) == 32 * (t * p);
      assert (t * Pow32(j) + e) / 32 == t * p + e / 32;
      ShiftPacked(t, e / 32, j - 1);
    }
  }

  lemma DivideBlock(q: nat, p: nat, r: nat)
    ensures (q * (32 * p) + r) / 32 == q * p + r / 32 && (q * (32 * p) + r) % 32 == r % 32
  {
    assert q * (32 * p) == 32 * (q * p);
  }

  lemma {:induction false} EncodeFront(q: nat, r: nat, k: nat)
    requires q < 32 && k > 0 && r < Pow32(k - 1)
    ensures Encode(q * Pow32(k - 1) + r, k) == [Char(q)] + Encode(r, k - 1)
    decreases k
  {
    hide Char;
    if k == 1 {
      assert Encode((q + r) / 32, 0) == "";
    } else {
      DivideBlock(q, Pow32(k - 2), r);
      EncodeFront(q, r / 32, k - 1);
    }
  }

  lemma Quotient(n: nat, p: nat) returns (q: nat, r: nat)
    requires p > 0 && n < 32 * p
    ensures n == q * p + r && r < p && q < 32
  {
    q, r := 0, n;
    while r >= p
      invariant n == q * p + r && 0 <= r < 32 * p - q * p && q < 32
      decreases r
    {
      assert (q + 1) * p == q * p + p;
      q, r := q + 1, r - p;
    }
  }

  lemma BlockOrder(q: nat, r: nat, d: nat, r': nat, p: nat)
    requires r < p && d >= 1
    ensures q * p + r < (q + d) * p + r'
  {
    assert (q + d) * p == q * p + d * p;
    assert d * p == p + (d - 1) * p;
    assert (d - 1) * p >= 0;
  }

  /** Place `r` of block `q`, for blocks of size `p`. */
  ghost function Block(q: nat, r: nat, p: nat): nat {
    q * p + r
  }

  /** Numbers compare first by block and then by their place in it. */
  lemma BlockOrderIff(q: nat, r: nat, q': nat, r': nat, p: nat)
    requires r < p && r' < p
    ensures Block(q, r, p) < Block(q', r', p) <==> q < q' || (q == q' && r < r')
  {
    if q < q' {
      BlockOrder(q, r, q' - q, r', p);
    } else if q' < q {
      BlockOrder(q', r', q - q', r, p);
    }
  }

  /** The first digit and the rest of an encoding. */
  lemma EncodeSplits(n: nat, k: nat) returns (q: nat, r: nat)
    requires k > 0 && n < Pow32(k)
    ensures q < 32 && r < Pow32(k - 1) && n == Block(q, r, Pow32(k - 1))
    ensures Encode(n, k) == [Char(q)] + Encode(r, k - 1)
  {
    hide Encode, Char;
    q, r := Quotient(n, Pow32(k - 1));
    EncodeFront(q, r, k);
  }

  /** Encodings of one width compare as strings exactly as the numbers compare. */
  lemma {:induction false} EncodeOrder(n: nat, m: nat, k: nat)
    requires n < Pow32(k) && m < Pow32(k)
    ensures Lexicographic(Encode(n, k), Encode(m, k)) <==> n < m
    decreases k
  {
    assert k == 0 ==> Pow32(k) == 1;
    hide Char, Pow32, Encode, Lexicographic, Block;
    if k == 0 {
      LexicographicTrichotomy(Encode(n, k), Encode(n, k));
    } else {
      var q, r := EncodeSplits(n, k);
      var q', r' := EncodeSplits(m, k);
      FrontOrder(q, Encode(r, k - 1), q', Encode(r', k - 1));
      BlockOrderIff(q, r, q', r', Pow32(k - 1));
      EncodeOrder(r, r', k - 1);
    }
  }

  lemma FrontOrder(q: nat, s: string, q': nat, s': string)
    requires q < 32 && q' < 32
    ensures Lexicographic([Char(q)] + s, [Char(q')] + s') <==> q < q' || (q == q' && Lexicographic(s, s'))
  {
    hide Char;
    assert ([Char(q)] + s)[1..] == s && ([Char(q')] + s')[1..] == s';
    if q < q' { AlphabetAscends(q, q'); } else if q' < q { AlphabetAscends(q', q); }
  }
}
