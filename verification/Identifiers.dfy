/**
 Time-ordered identifiers: UUID version 7 (sections 5.7 and 6.2 of RFC 9562) and ULID.  Bits are
 handled as arithmetic on natural numbers: masking to k bits is the remainder modulo 2^k, shifting
 and or-ing disjoint fields is multiplication and addition.  The clock and random bits are inputs.
 */
module Identifiers {
  import opened Wrappers
  import opened Orders
  import opened Base32
  import opened Powers

  const P48: nat := 0x1_0000_0000_0000
  const P62: nat := 0x4000_0000_0000_0000
  const P64: nat := 0x1_0000_0000_0000_0000
  const P75: nat := 0x800_0000_0000_0000_0000
  const P80: nat := 0x1_0000_0000_0000_0000_0000

  // ----- UUID version 7 -----

  datatype V7State = V7State(lastMs: nat, counter: nat)

  /** 48 bits of time, version 7, a 12-bit counter, variant 0b10 and 62 random bits. */
  function PackV7(ms: nat, counter: nat, random: nat): nat {
    ((ms * 0x10000 + 0x7000 + counter) * 4 + 2) * P62 + random
  }

  function Variant(u: nat): nat {
    u / P62 % 4
  }

  function Version(u: nat): nat {
    u / P62 / 4 / 0x1000 % 16
  }

  /** The counter restarts from 10 random bits when the clock has moved on, and else counts up. */
  function NextV7(s: V7State, nowMs: int, seed: nat): V7State {
    if nowMs > s.lastMs then V7State(nowMs, seed) else V7State(s.lastMs, (s.counter + 1) % 0x1000)
  }

  /** The millisecond field, or none where the source rejects the identifier. */
  function ExtractV7(u: nat): Option<nat> {
    if Variant(u) == 2 && Version(u) == 7 then Some(u / P80) else None
  }

  ghost predicate GoodV7(s: V7State) {
    s.counter < 0x1000
  }

  lemma UnpackV7(ms: nat, counter: nat, random: nat)
    requires counter < 0x1000 && random < P62
    ensures var u := PackV7(ms, counter, random);
            && Variant(u) == 2 && Version(u) == 7 && u / P80 == ms && ExtractV7(u) == Some(ms)
            && u / P64 % 0x1000 == counter && u % P62 == random
  {
    var u := PackV7(ms, counter, random);
    assert u / P62 == (ms * 0x10000 + 0x7000 + counter) * 4 + 2;
    assert u / P62 / 4 == ms * 0x10000 + 0x7000 + counter;
    assert u / P62 / 4 / 0x1000 == ms * 16 + 7;
    assert u / P80 == ms;
    assert u / P64 == ms * 0x10000 + 0x7000 + counter;
  }

  /**
   Within the 48-bit range the next identifier is larger than the last one exactly when the clock
   has moved on or the counter has not reached its maximum.
   */
  lemma V7IncreasesIff(s: V7State, nowMs: int, seed: nat, random: nat, random': nat)
    requires GoodV7(s) && seed < 0x400 && random < P62 && random' < P62 && s.lastMs < P48 && nowMs < P48
    ensures var t := NextV7(s, nowMs, seed);
            PackV7(s.lastMs, s.counter, random) < PackV7(t.lastMs, t.counter, random') <==>
            nowMs > s.lastMs || s.counter < 0xFFF
  {}

  datatype V7Input = V7Input(nowMs: int, seed: nat, random: nat)

  ghost predicate GoodInputs(inputs: seq<V7Input>) {
    forall i :: 0 <= i < |inputs| ==> inputs[i].seed < 0x400 && inputs[i].random < P62 && inputs[i].nowMs < P48
  }

  /** The identifiers that a run of calls returns. */
  ghost function V7Run(s: V7State, inputs: seq<V7Input>): seq<nat>
    decreases |inputs|
  {
    if inputs == [] then []
    else
      var t := NextV7(s, inputs[0].nowMs, inputs[0].seed);
      [PackV7(t.lastMs % P48, t.counter, inputs[0].random)] + V7Run(t, inputs[1..])
  }

  ghost predicate Increasing(xs: seq<nat>) {
    forall i, j :: 0 <= i < j < |xs| ==> xs[i] < xs[j]
  }

  /** No call is made with the counter at its maximum and the clock not past the last identifier. */
  ghost predicate V7NeverWraps(s: V7State, inputs: seq<V7Input>)
    decreases |inputs|
  {
    inputs != [] ==>
      && (inputs[0].nowMs > s.lastMs || s.counter < 0xFFF)
      && V7NeverWraps(NextV7(s, inputs[0].nowMs, inputs[0].seed), inputs[1..])
  }

  /** However the clock moves, the identifiers of a run increase throughout if and only if the counter never wraps. */
  lemma {:induction false} V7RunIncreasesIff(s: V7State, random: nat, inputs: seq<V7Input>)
    requires GoodV7(s) && s.lastMs < P48 && random < P62 && GoodInputs(inputs)
    ensures Increasing([PackV7(s.lastMs, s.counter, random)] + V7Run(s, inputs)) <==> V7NeverWraps(s, inputs)
    decreases |inputs|
  {
    hide PackV7, Increasing;
    var first := PackV7(s.lastMs, s.counter, random);
    var rest := V7Run(s, inputs);
    IncreasingPrependIff(first, rest);
    if inputs != [] {
      var t := NextV7(s, inputs[0].nowMs, inputs[0].seed);
      V7RunIncreasesIff(t, inputs[0].random, inputs[1..]);
      V7IncreasesIff(s, inputs[0].nowMs, inputs[0].seed, random, inputs[0].random);
      SmallRemainder(t.lastMs);
      assert rest == [PackV7(t.lastMs, t.counter, inputs[0].random)] + V7Run(t, inputs[1..]);
    } else {
      EmptyRuns();
    }
  }

  lemma SmallRemainder(ms: nat)
    requires ms < P48
    ensures ms % P48 == ms
  {}

  lemma IncreasingPrependIff(x: nat, xs: seq<nat>)
    ensures Increasing([x] + xs) <==> Increasing(xs) && (xs != [] ==> x < xs[0])
  {
    var all := [x] + xs;
    assert forall i :: 0 <= i < |xs| ==> all[i + 1] == xs[i];
    if Increasing(all) {
      forall i, j | 0 <= i < j < |xs| ensures xs[i] < xs[j] {
        assert all[i + 1] < all[j + 1];
      }
      assert xs != [] ==> all[0] < all[1];
    }
  }

  lemma {:induction false} V7StallsIncrease(s: V7State, random: nat, inputs: seq<V7Input>)
    requires s.lastMs < P48 && random < P62 && GoodInputs(inputs)
    requires forall i :: 0 <= i < |inputs| ==> inputs[i].nowMs <= s.lastMs
    requires s.counter + |inputs| <= 0xFFF
    ensures Increasing([PackV7(s.lastMs, s.counter, random)] + V7Run(s, inputs))
  {
    V7RunIncreasesIff(s, random, inputs);
    V7StallNeverWraps(s, inputs);
  }

  lemma {:induction false} V7StallNeverWraps(s: V7State, inputs: seq<V7Input>)
    requires s.counter + |inputs| <= 0xFFF && forall i :: 0 <= i < |inputs| ==> inputs[i].nowMs <= s.lastMs
    ensures V7NeverWraps(s, inputs)
    decreases |inputs|
  {
    if inputs != [] {
      V7StallNeverWraps(NextV7(s, inputs[0].nowMs, inputs[0].seed), inputs[1..]);
    }
  }

  /** A counter restarts below 1024, so that it wraps after 3072 further calls at the earliest. */
  lemma {:induction false} V7Headroom(s: V7State, inputs: seq<V7Input>, used: nat)
    requires s.counter < 0x400 + used && used + |inputs| <= 3072 && GoodInputs(inputs)
    ensures V7NeverWraps(s, inputs)
    decreases |inputs|
  {
    if inputs != [] {
      V7Headroom(NextV7(s, inputs[0].nowMs, inputs[0].seed), inputs[1..], used + 1);
    }
  }

  /** The first identifier of a millisecond is followed by 3072 larger ones, however the clock moves. */
  lemma V7HeadroomOf3072(s: V7State, inputs: seq<V7Input>)
    requires GoodInputs(inputs) && 1 <= |inputs| <= 3073 && inputs[0].nowMs > s.lastMs
    ensures Increasing(V7Run(s, inputs))
  {
    hide PackV7, Increasing, V7NeverWraps;
    var t := NextV7(s, inputs[0].nowMs, inputs[0].seed);
    V7Headroom(t, inputs[1..], 0);
    V7RunIncreasesIff(t, inputs[0].random, inputs[1..]);
    SmallRemainder(t.lastMs);
  }

  class UuidV7Generator {
    var lastMs: nat
    var counter: nat

    constructor ()
      ensures lastMs == 0 && counter == 0
    {
      lastMs, counter := 0, 0;
    }

    ghost function State(): V7State
      reads this
    {
      V7State(lastMs, counter)
    }

    method Generate(clockMs: int, seed: nat, random: nat) returns (u: nat)
      requires GoodV7(State()) && seed < 0x400 && random < P62
      modifies this
      ensures State() == NextV7(old(State()), clockMs, seed) && GoodV7(State())
      ensures clockMs > old(lastMs) ==> lastMs == clockMs && counter == seed
      ensures clockMs <= old(lastMs) ==> lastMs == old(lastMs) && counter == (old(counter) + 1) % 0x1000
      ensures u == PackV7(lastMs % P48, counter, random)
      ensures u / P80 == lastMs % P48 && u / P64 % 0x1000 == counter && u % P62 == random
      ensures Variant(u) == 2 && Version(u) == 7 && ExtractV7(u) == Some(lastMs % P48)
    {
      var nowMs := clockMs;
      if nowMs > lastMs {
        lastMs := nowMs;
        counter := seed;
      } else {
        counter := (counter + 1) % 0x1000;
        nowMs := lastMs;
      }
      var ts48 := nowMs % P48;
      u := ts48 * P80 + (0x7000 + counter) * P64 + 2 * P62 + random;
      UnpackV7(ts48, counter, random);
    }
  }

  // ----- ULID -----

  datatype UlidState = UlidState(lastMs: nat, entropy: nat)

  ghost predicate GoodUlid(s: UlidState) {
    s.lastMs < P48 && s.entropy < P80
  }

  function NextUlid(s: UlidState, clockMs: int, fresh75: nat): UlidState {
    var nowMs := clockMs % P48;
    if nowMs > s.lastMs then UlidState(nowMs, fresh75) else UlidState(s.lastMs, (s.entropy + 1) % P80)
  }

  function UlidNumber(s: UlidState): nat {
    s.lastMs * P80 + s.entropy
  }

  function UlidText(s: UlidState): string {
    Encode(UlidNumber(s), 26)
  }

  lemma Pow32Values()
    ensures Pow32(16) == P80 && Pow32(10) == 0x4_0000_0000_0000 && Pow32(26) == Pow32(10) * P80
  {
    assert Pow32(4) == 0x10_0000 && Pow32(8) == 0x100_0000_0000;
    assert Pow32(12) == 0x1000_0000_0000_0000 && Pow32(16) == P80;
    assert Pow32(20) == 0x10_0000 * P80 && Pow32(24) == 0x100_0000_0000 * P80;
  }

  lemma UlidFits(s: UlidState)
    requires GoodUlid(s)
    ensures UlidNumber(s) < Pow32(26) && s.lastMs < Pow32(10)
  {
    Pow32Values();
  }

  /** Decoding the first ten characters of a ULID gives back its millisecond field. */
  lemma UlidTimestamp(s: UlidState)
    requires GoodUlid(s)
    ensures var prefix := UlidText(s)[..10];
            (forall i :: 0 <= i < 10 ==> Valid(prefix[i])) && Value(prefix) == s.lastMs
  {
    hide Encode, Value, Pow32, Shift, Valid;
    Pow32Values();
    EncodePrefix(UlidNumber(s), 10, 16);
    ShiftPacked(s.lastMs, s.entropy, 16);
    ValueEncode(s.lastMs, 10);
  }

  /** ULIDs sort as strings the way their states sort by time and entropy. */
  lemma UlidOrder(s: UlidState, t: UlidState)
    requires GoodUlid(s) && GoodUlid(t)
    ensures Lexicographic(UlidText(s), UlidText(t)) <==>
            s.lastMs < t.lastMs || (s.lastMs == t.lastMs && s.entropy < t.entropy)
  {
    hide Encode, Lexicographic, Pow32;
    UlidFits(s);
    UlidFits(t);
    EncodeOrder(UlidNumber(s), UlidNumber(t), 26);
  }

  /** The next ULID is larger, even if the clock runs backwards, exactly until the entropy wraps. */
  lemma UlidIncreasesIff(s: UlidState, clockMs: int, fresh75: nat)
    requires GoodUlid(s) && fresh75 < P75
    ensures GoodUlid(NextUlid(s, clockMs, fresh75))
    ensures Lexicographic(UlidText(s), UlidText(NextUlid(s, clockMs, fresh75))) <==>
            clockMs % P48 > s.lastMs || s.entropy < P80 - 1
  {
    UlidOrder(s, NextUlid(s, clockMs, fresh75));
  }

  datatype UlidInput = UlidInput(clockMs: int, fresh75: nat)

  /** The ULIDs that a run of calls returns. */
  ghost function UlidRun(s: UlidState, inputs: seq<UlidInput>): seq<string>
    decreases |inputs|
  {
    if inputs == [] then []
    else
      var t := NextUlid(s, inputs[0].clockMs, inputs[0].fresh75);
      [UlidText(t)] + UlidRun(t, inputs[1..])
  }

  ghost predicate FreshEntropy(inputs: seq<UlidInput>) {
    forall i :: 0 <= i < |inputs| ==> inputs[i].fresh75 < P75
  }

  ghost predicate Ascends(texts: seq<string>) {
    forall i, j :: 0 <= i < j < |texts| ==> Lexicographic(texts[i], texts[j])
  }

  ghost predicate UlidNeverWraps(s: UlidState, inputs: seq<UlidInput>)
    decreases |inputs|
  {
    inputs != [] ==>
      && (inputs[0].clockMs % P48 > s.lastMs || s.entropy < P80 - 1)
      && UlidNeverWraps(NextUlid(s, inputs[0].clockMs, inputs[0].fresh75), inputs[1..])
  }

  lemma AscendsPrependIff(x: string, xs: seq<string>)
    ensures Ascends([x] + xs) <==> Ascends(xs) && (xs != [] ==> Lexicographic(x, xs[0]))
  {
    hide Lexicographic;
    LexicographicIsStrictTotal();
    var all := [x] + xs;
    assert forall i :: 0 <= i < |xs| ==> all[i + 1] == xs[i];
    if Ascends(all) {
      forall i, j | 0 <= i < j < |xs| ensures Lexicographic(xs[i], xs[j]) {
        assert Lexicographic(all[i + 1], all[j + 1]);
      }
      assert xs != [] ==> Lexicographic(all[0], all[1]);
    }
  }

  /** However the clock moves, the ULIDs of a run ascend as strings if and only if the entropy never wraps. */
  lemma {:induction false} UlidRunAscendsIff(s: UlidState, inputs: seq<UlidInput>)
    requires GoodUlid(s) && FreshEntropy(inputs)
    ensures Ascends([UlidText(s)] + UlidRun(s, inputs)) <==> UlidNeverWraps(s, inputs)
    decreases |inputs|
  {
    hide UlidText, Ascends, Lexicographic;
    AscendsPrependIff(UlidText(s), UlidRun(s, inputs));
    if inputs != [] {
      var t := NextUlid(s, inputs[0].clockMs, inputs[0].fresh75);
      UlidIncreasesIff(s, inputs[0].clockMs, inputs[0].fresh75);
      UlidRunAscendsIff(t, inputs[1..]);
      assert UlidRun(s, inputs) == [UlidText(t)] + UlidRun(t, inputs[1..]);
    } else {
      EmptyRuns();
    }
  }

  lemma EmptyRuns()
    ensures Increasing([]) && Ascends([])
  {}

  lemma {:induction false} UlidRoom(s: UlidState, inputs: seq<UlidInput>, used: nat)
    requires s.entropy < P75 + used && used + |inputs| <= P80 - P75 && FreshEntropy(inputs)
    ensures UlidNeverWraps(s, inputs)
    decreases |inputs|
  {
    if inputs != [] {
      UlidRoom(NextUlid(s, inputs[0].clockMs, inputs[0].fresh75), inputs[1..], used + 1);
    }
  }

  /** From fresh entropy, 2^80 - 2^75 further ULIDs ascend whatever the clock does. */
  lemma UlidHeadroom(s: UlidState, inputs: seq<UlidInput>)
    requires GoodUlid(s) && s.entropy < P75 && FreshEntropy(inputs) && |inputs| <= P80 - P75
    ensures Ascends([UlidText(s)] + UlidRun(s, inputs))
  {
    hide Ascends, UlidText;
    UlidRoom(s, inputs, 0);
    UlidRunAscendsIff(s, inputs);
  }

  /** Writes the 26 digits from the right end, shifting five bits out at a time. */
  method EncodeUlid(number: nat) returns (text: string)
    ensures text == Encode(number, 26)
  {
    var chars := new char[26];
    var n := number;
    var i := 25;
    assert Encode(number, 26) + chars[26..] == Encode(number, 26);
    while i >= 0
      invariant -1 <= i <= 25 && n >= 0
      invariant Encode(number, 26) == Encode(n, i + 1) + chars[i + 1..]
    {
      ghost var tail := chars[i + 1..];
      chars[i] := ALPHABET[n % 32];
      assert chars[i..] == [Char(n % 32)] + tail;
      assert Encode(n, i + 1) + tail == Encode(n / 32, i) + ([Char(n % 32)] + tail);
      n := n / 32;
      i := i - 1;
    }
    text := chars[..];
    assert Encode(n, 0) + chars[0..] == chars[..];
  }

  method DecodeDigits(text: string) returns (value: Option<nat>)
    ensures value.Some? <==> forall i :: 0 <= i < |text| ==> Valid(text[i])
    ensures value.Some? ==> value.value == Value(text)
  {
    hide Char, Digit, Valid;
    var n := 0;
    for i := 0 to |text|
      invariant forall j :: 0 <= j < i ==> Valid(text[j])
      invariant n == Value(text[..i])
    {
      if !Valid(text[i]) { return None; }
      assert text[..i + 1][..i] == text[..i];
      n := n * 32 + Digit(text[i]);
    }
    assert text[..|text|] == text;
    return Some(n);
  }

  /** None where the source raises ValueError; `upper` is Python's `str.upper`. */
  method ExtractUlid(text: string, upper: string -> string) returns (ms: Option<nat>)
    ensures |text| != 26 ==> ms == None
    ensures |text| == 26 ==>
              var clean := upper(text);
              var prefix := if |clean| <= 10 then clean else clean[..10];
              && (ms.Some? <==> forall i :: 0 <= i < |prefix| ==> Valid(prefix[i]))
              && (ms.Some? ==> ms.value == Value(prefix))
  {
    hide Valid, Value;
    if |text| != 26 { return None; }
    var clean := upper(text);
    ms := DecodeDigits(if |clean| <= 10 then clean else clean[..10]);
  }

  class UlidGenerator {
    var lastMs: nat
    var entropy: nat

    constructor ()
      ensures lastMs == 0 && entropy == 0
    {
      lastMs, entropy := 0, 0;
    }

    ghost function State(): UlidState
      reads this
    {
      UlidState(lastMs, entropy)
    }

    method Generate(clockMs: int, fresh75: nat) returns (text: string)
      requires GoodUlid(State()) && fresh75 < P75
      modifies this
      ensures State() == NextUlid(old(State()), clockMs, fresh75) && GoodUlid(State())
      ensures clockMs % P48 > old(lastMs) ==> lastMs == clockMs % P48 && entropy == fresh75
      ensures clockMs % P48 <= old(lastMs) ==> lastMs == old(lastMs) && entropy == (old(entropy) + 1) % P80
      ensures text == UlidText(State())
    {
      var nowMs := clockMs % P48;
      if nowMs > lastMs {
        lastMs := nowMs;
        entropy := fresh75;
      } else {
        nowMs := lastMs;
        entropy := (entropy + 1) % P80;
      }
      text := EncodeUlid(nowMs * P80 + entropy);
    }
  }

  /** A generated ULID decodes to the generator's millisecond, whatever upper-casing leaves alone. */
  method GenerateThenExtract(g: UlidGenerator, clockMs: int, fresh75: nat, upper: string -> string)
    returns (ms: Option<nat>)
    requires GoodUlid(g.State()) && fresh75 < P75
    requires forall s :: (forall i :: 0 <= i < |s| ==> Valid(s[i])) ==> upper(s) == s
    modifies g
    ensures ms == Some(g.lastMs)
  {
    var text := g.Generate(clockMs, fresh75);
    EncodeValid(UlidNumber(g.State()), 26);
    assert upper(text) == text;
    UlidTimestamp(g.State());
    ms := ExtractUlid(text, upper);
  }
}
