/**
 Topic routing of the in-memory AMQP broker: dot-separated binding patterns in which `*` stands
 for one word and `#` for any number of words, following the topic exchange type of section
 3.1.3.3 of the AMQP 0-9-1 specification.

 A literal pattern word is compared with Python's `fnmatchcase`.  The matcher takes the comparison
 as a parameter: `fits(w, p)` says that word `w` fits the literal `p`.
 */
module TopicRouting {
  import opened DottedNames
  import opened Glob

  function MatchTokens(fits: (string, string) -> bool, pattern: seq<string>, key: seq<string>): bool
    decreases |pattern|
  {
    if pattern == [] then key == []
    else if pattern[0] == "#" then
      exists i :: 0 <= i <= |key| && MatchTokens(fits, pattern[1..], key[i..])
    else if pattern[0] == "*" then
      key != [] && MatchTokens(fits, pattern[1..], key[1..])
    else
      key != [] && fits(key[0], pattern[0]) && MatchTokens(fits, pattern[1..], key[1..])
  }

  // ----- Meaning: the key splits into consecutive slices, one for each pattern word -----

  ghost predicate SliceFits(fits: (string, string) -> bool, word: string, slice: seq<string>) {
    word == "#" || (|slice| == 1 && (word == "*" || fits(slice[0], word)))
  }

  /** Pattern word i covers the key words from cuts[i] up to cuts[i + 1]. */
  ghost predicate Cuts(fits: (string, string) -> bool, pattern: seq<string>, key: seq<string>, cuts: seq<nat>) {
    && |cuts| == |pattern| + 1
    && cuts[0] == 0 && cuts[|pattern|] == |key|
    && (forall i, j :: 0 <= i && j == i + 1 < |cuts| ==>
          cuts[i] <= cuts[j] <= |key| && SliceFits(fits, pattern[i], key[cuts[i]..cuts[j]]))
  }

  ghost function Shift(cuts: seq<nat>, n: nat): (r: seq<nat>)
    ensures |r| == |cuts| + 1 && r[0] == 0 && forall i :: 1 <= i < |r| ==> r[i] == n + cuts[i - 1]
  {
    [0] + seq(|cuts|, i requires 0 <= i < |cuts| => n + cuts[i])
  }

  lemma PrependCut(fits: (string, string) -> bool, pattern: seq<string>, key: seq<string>, n: nat, rest: seq<nat>)
    requires pattern != [] && n <= |key| && SliceFits(fits, pattern[0], key[0..n])
    requires Cuts(fits, pattern[1..], key[n..], rest)
    ensures Cuts(fits, pattern, key, Shift(rest, n))
  {}

  lemma {:induction false} MatchHasCuts(fits: (string, string) -> bool, pattern: seq<string>, key: seq<string>)
    returns (cuts: seq<nat>)
    requires MatchTokens(fits, pattern, key)
    ensures Cuts(fits, pattern, key, cuts)
    decreases |pattern|
  {
    hide Cuts;
    if pattern == [] {
      cuts := [0];
      NoCuts(fits);
    } else {
      var n := 1;
      if pattern[0] == "#" {
        n :| 0 <= n <= |key| && MatchTokens(fits, pattern[1..], key[n..]);
      }
      var rest := MatchHasCuts(fits, pattern[1..], key[n..]);
      PrependCut(fits, pattern, key, n, rest);
      cuts := Shift(rest, n);
    }
  }

  lemma NoCuts(fits: (string, string) -> bool)
    ensures Cuts(fits, [], [], [0])
  {}

  lemma {:induction false} CutsMatch(
    fits: (string, string) -> bool, pattern: seq<string>, key: seq<string>, cuts: seq<nat>)
    requires Cuts(fits, pattern, key, cuts)
    ensures MatchTokens(fits, pattern, key)
    decreases |pattern|
  {
    if pattern != [] {
      var n := cuts[1];
      assert SliceFits(fits, pattern[0], key[cuts[0]..cuts[1]]);
      var rest := seq(|cuts| - 1, i requires 0 <= i < |cuts| - 1 => if cuts[i + 1] >= n then cuts[i + 1] - n else 0);
      CutsAscend(fits, pattern, key, cuts);
      forall i, j | 0 <= i && j == i + 1 < |rest|
        ensures rest[i] <= rest[j] <= |key[n..]| && SliceFits(fits, pattern[1..][i], key[n..][rest[i]..rest[j]])
      {
        assert key[n..][rest[i]..rest[j]] == key[cuts[i + 1]..cuts[j + 1]];
      }
      CutsMatch(fits, pattern[1..], key[n..], rest);
    }
  }

  lemma {:induction false} CutsAscend(
    fits: (string, string) -> bool, pattern: seq<string>, key: seq<string>, cuts: seq<nat>)
    requires Cuts(fits, pattern, key, cuts) && pattern != []
    ensures forall i :: 1 <= i < |cuts| ==> cuts[1] <= cuts[i] <= |key|
  {
    var k := 1;
    while k < |cuts| - 1
      invariant 1 <= k < |cuts|
      invariant forall i :: 1 <= i <= k ==> cuts[1] <= cuts[i] <= |key|
    {
      var next := k + 1;
      assert cuts[k] <= cuts[next] <= |key|;
      k := next;
    }
  }

  /** The matcher accepts exactly the keys that can be cut up to fit the pattern. */
  lemma MatchIffCuts(fits: (string, string) -> bool, pattern: seq<string>, key: seq<string>)
    ensures MatchTokens(fits, pattern, key) <==> exists cuts :: Cuts(fits, pattern, key, cuts)
  {
    if MatchTokens(fits, pattern, key) {
      var cuts := MatchHasCuts(fits, pattern, key);
    }
    if cuts :| Cuts(fits, pattern, key, cuts) {
      CutsMatch(fits, pattern, key, cuts);
    }
  }

  // ----- When literal words mean what AMQP says they mean -----

  predicate Equal(w: string, p: string) {
    w == p
  }

  ghost predicate Literal(word: string) {
    word != "#" && word != "*"
  }

  ghost predicate Word(w: string) {
    '.' !in w
  }

  ghost predicate Words(ws: seq<string>) {
    forall i :: 0 <= i < |ws| ==> Word(ws[i])
  }

  /** Among possible key words only the literal itself fits it. */
  ghost predicate FitsOnlyItself(fits: (string, string) -> bool, p: string) {
    forall w :: Word(w) ==> (fits(w, p) <==> w == p)
  }

  lemma {:induction false} ExactLiteralsAgree(fits: (string, string) -> bool, pattern: seq<string>, key: seq<string>)
    requires forall i :: 0 <= i < |pattern| && Literal(pattern[i]) ==> FitsOnlyItself(fits, pattern[i])
    requires Words(key)
    ensures MatchTokens(fits, pattern, key) == MatchTokens(Equal, pattern, key)
    decreases |pattern|
  {
    if pattern != [] {
      forall i | 0 <= i <= |key|
        ensures MatchTokens(fits, pattern[1..], key[i..]) == MatchTokens(Equal, pattern[1..], key[i..])
      {
        ExactLiteralsAgree(fits, pattern[1..], key[i..]);
      }
      assert Literal(pattern[0]) ==> FitsOnlyItself(fits, pattern[0]);
    }
  }

  /** The words of a pattern that each take exactly one key word. */
  ghost function Skeleton(pattern: seq<string>): seq<string> {
    if pattern == [] then []
    else if pattern[0] == "#" then Skeleton(pattern[1..])
    else [pattern[0]] + Skeleton(pattern[1..])
  }

  ghost predicate Aligned(f: (string, string) -> bool, skeleton: seq<string>, key: seq<string>)
    requires |skeleton| == |key|
  {
    forall i :: 0 <= i < |key| ==> skeleton[i] == "*" || f(key[i], skeleton[i])
  }

  lemma {:induction false} MatchNeedsWords(f: (string, string) -> bool, pattern: seq<string>, key: seq<string>)
    requires MatchTokens(f, pattern, key)
    ensures |key| >= |Skeleton(pattern)|
    decreases |pattern|
  {
    if pattern != [] {
      if pattern[0] == "#" {
        var i :| 0 <= i <= |key| && MatchTokens(f, pattern[1..], key[i..]);
        MatchNeedsWords(f, pattern[1..], key[i..]);
      } else {
        MatchNeedsWords(f, pattern[1..], key[1..]);
      }
    }
  }

  /** A key with no word to spare matches word by word. */
  lemma {:induction false} ShortestMatch(f: (string, string) -> bool, pattern: seq<string>, key: seq<string>)
    requires |key| == |Skeleton(pattern)|
    ensures MatchTokens(f, pattern, key) <==> Aligned(f, Skeleton(pattern), key)
    decreases |pattern|
  {
    if pattern != [] {
      var rest := Skeleton(pattern[1..]);
      if pattern[0] == "#" {
        ShortestMatch(f, pattern[1..], key);
        assert key[0..] == key;
        forall i | 0 < i <= |key| ensures !MatchTokens(f, pattern[1..], key[i..]) {
          if MatchTokens(f, pattern[1..], key[i..]) { MatchNeedsWords(f, pattern[1..], key[i..]); }
        }
      } else {
        ShortestMatch(f, pattern[1..], key[1..]);
        assert key == [key[0]] + key[1..];
        assert Aligned(f, Skeleton(pattern), key) <==>
               (pattern[0] == "*" || f(key[0], pattern[0])) && Aligned(f, rest, key[1..]) by {
          forall i | 0 <= i < |rest| ensures Skeleton(pattern)[i + 1] == rest[i] && key[i + 1] == key[1..][i] {}
        }
      }
    }
  }

  lemma {:induction false} SkeletonWords(pattern: seq<string>, p: string)
    requires Words(pattern) && p in pattern && Literal(p)
    ensures p in Skeleton(pattern) && Words(Skeleton(pattern)) && "#" !in Skeleton(pattern)
  {
    SkeletonIsWords(pattern);
    if pattern[0] != p { SkeletonWords(pattern[1..], p); }
  }

  lemma {:induction false} SkeletonIsWords(pattern: seq<string>)
    requires Words(pattern)
    ensures Words(Skeleton(pattern)) && "#" !in Skeleton(pattern)
  {
    if pattern != [] { SkeletonIsWords(pattern[1..]); }
  }

  /** The skeleton with an ordinary word for every `*`. */
  ghost function Filled(skeleton: seq<string>): (r: seq<string>)
    ensures |r| == |skeleton|
  {
    seq(|skeleton|, i requires 0 <= i < |skeleton| => if skeleton[i] == "*" then "x" else skeleton[i])
  }

  ghost predicate AllLiteral(pattern: seq<string>) {
    forall w :: w in pattern ==> Literal(w)
  }

  /** A key with no word to spare and an ordinary word for every `*` is not the pattern, unless that is all literal. */
  lemma {:induction false} NotThePattern(pattern: seq<string>, key: seq<string>)
    requires !AllLiteral(pattern) && |key| == |Skeleton(pattern)|
    requires forall i :: 0 <= i < |key| && Skeleton(pattern)[i] == "*" ==> key[i] != "*"
    ensures key != pattern
  {
    SkeletonShorter(pattern);
    var i :| 0 <= i < |pattern| && !Literal(pattern[i]);
    assert "#" !in pattern ==> Skeleton(pattern)[i] == "*";
  }

  lemma {:induction false} SkeletonShorter(pattern: seq<string>)
    ensures "#" in pattern ==> |Skeleton(pattern)| < |pattern|
    ensures "#" !in pattern ==> Skeleton(pattern) == pattern
    ensures |Skeleton(pattern)| <= |pattern|
  {
    if pattern != [] {
      SkeletonShorter(pattern[1..]);
      assert pattern == [pattern[0]] + pattern[1..];
    }
  }

  /** A literal that does not stand for itself alone makes some key come out differently. */
  lemma DisagreementKey(fits: (string, string) -> bool, pattern: seq<string>, p: string) returns (key: seq<string>)
    requires Words(pattern) && p in pattern && Literal(p) && !FitsOnlyItself(fits, p)
    ensures key != [] && Words(key) && MatchTokens(fits, pattern, key) != MatchTokens(Equal, pattern, key)
    ensures !AllLiteral(pattern) ==> key != pattern
  {
    hide MatchTokens, Skeleton;
    var sk := Skeleton(pattern);
    SkeletonWords(pattern, p);
    key := Filled(sk);
    ShortestMatch(fits, pattern, key);
    ShortestMatch(Equal, pattern, key);
    assert Aligned(Equal, sk, key);
    if MatchTokens(fits, pattern, key) {
      var w :| Word(w) && !(fits(w, p) <==> w == p);
      var i :| 0 <= i < |sk| && sk[i] == p;
      assert Filled(sk)[i] == p && fits(p, p) && w != p && fits(w, p);
      key := key[i := w];
      ShortestMatch(fits, pattern, key);
      ShortestMatch(Equal, pattern, key);
      assert forall j :: 0 <= j < |sk| && j != i ==> key[j] == Filled(sk)[j];
      assert Aligned(fits, sk, key);
      assert !Aligned(Equal, sk, key) by { assert sk[i] != "*" && !Equal(key[i], sk[i]); }
    }
    if !AllLiteral(pattern) {
      NotThePattern(pattern, key);
    }
  }

  lemma AgreesIffLiteralsExact(fits: (string, string) -> bool, pattern: string)
    ensures (forall key :: MatchTokens(fits, Split(pattern), Split(key)) == MatchTokens(Equal, Split(pattern), Split(key)))
            <==> (forall w :: w in Split(pattern) && Literal(w) ==> FitsOnlyItself(fits, w))
  {
    var ps := Split(pattern);
    if forall w :: w in ps && Literal(w) ==> FitsOnlyItself(fits, w) {
      forall key ensures MatchTokens(fits, ps, Split(key)) == MatchTokens(Equal, ps, Split(key)) {
        ExactLiteralsAgree(fits, ps, Split(key));
      }
    } else {
      var w :| w in ps && Literal(w) && !FitsOnlyItself(fits, w);
      var words := DisagreementKey(fits, ps, w);
      SplitJoin(words);
      assert Split(Join(words)) == words;
    }
  }

  /** Compared as a glob, a word fits only itself exactly when it has no `*`, no `?` and no closed bracket. */
  lemma FitsOnlyItselfIff(inClass: (string, char) -> bool, p: string)
    requires Word(p)
    ensures FitsOnlyItself(Fnmatch(inClass), p) <==> GlobFree(p)
  {
    if GlobFree(p) {
      PlainIff(p);
      forall w | Word(w) ensures Fnmatch(inClass)(w, p) <==> w == p {
        PlainFitsItself(inClass, p, w);
      }
    } else if Fnmatch(inClass)(p, p) {
      var v := OtherWordFits(inClass, p);
      assert Word(v) && Fnmatch(inClass)(v, p);
    }
  }

  /** Word by word the matcher agrees with the AMQP rules on all keys exactly when no literal word has glob characters. */
  lemma TokensAgreeIff(inClass: (string, char) -> bool, pattern: string)
    ensures (forall key :: MatchTokens(Fnmatch(inClass), Split(pattern), Split(key))
                           == MatchTokens(Equal, Split(pattern), Split(key)))
            <==> (forall w :: w in Split(pattern) && Literal(w) ==> GlobFree(w))
  {
    hide MatchTokens, GlobFree, FitsOnlyItself, Fnmatch;
    AgreesIffLiteralsExact(Fnmatch(inClass), pattern);
    forall w | w in Split(pattern) ensures FitsOnlyItself(Fnmatch(inClass), w) <==> GlobFree(w) {
      FitsOnlyItselfIff(inClass, w);
    }
  }

  lemma OneWord(w: string)
    requires Word(w)
    ensures Split(w) == [w]
  {
    if w != "" {
      OneWord(w[1..]);
      assert w == [w[0]] + w[1..];
    }
  }

  /** The binding `v?` receives `v1`, which by the AMQP rules it must not. */
  lemma QuestionMarkDisagrees(inClass: (string, char) -> bool)
    ensures TopicMatches(Fnmatch(inClass), "v?", "v1") && !MatchTokens(Equal, Split("v?"), Split("v1"))
  {
    OneWord("v?");
    OneWord("v1");
    assert "v?"[1..] == "?" && "?"[1..] == "" && "v1"[1..] == "1" && "1"[1..] == "";
    assert Items("?") == [Any] && Items("v?") == [Lit('v')] + [Any];
    assert Matches(inClass, [Any], "1") && Items("v?")[1..] == [Any];
    assert Fnmatch(inClass)("v1", "v?");
    assert ["v?"][1..] == [] && ["v1"][1..] == [];
  }

  // ----- The string-level test and its two shortcuts -----

  function TopicMatches(fits: (string, string) -> bool, pattern: string, routingKey: string): bool {
    pattern == "#" || pattern == routingKey || MatchTokens(fits, Split(pattern), Split(routingKey))
  }

  lemma {:induction false} PatternMatchesItself(fits: (string, string) -> bool, pattern: seq<string>)
    requires forall i :: 0 <= i < |pattern| && Literal(pattern[i]) ==> fits(pattern[i], pattern[i])
    ensures MatchTokens(fits, pattern, pattern)
    decreases |pattern|
  {
    if pattern != [] {
      PatternMatchesItself(fits, pattern[1..]);
      assert MatchTokens(fits, pattern[1..], pattern[1..]);
    }
  }

  lemma HashMatchesAll(fits: (string, string) -> bool, routingKey: string)
    ensures MatchTokens(fits, Split("#"), Split(routingKey))
  {
    var key := Split(routingKey);
    assert Split("#") == ["#"] by { assert "#"[1..] == "" && [""][1..] == []; }
    assert key[|key|..] == [] && MatchTokens(fits, [], key[|key|..]);
    assert ["#"][1..] == [];
  }

  /** The shortcuts never change the answer if and only if the pattern's words match themselves. */
  lemma ShortcutsSoundIff(fits: (string, string) -> bool, pattern: string)
    ensures (forall key :: TopicMatches(fits, pattern, key) == MatchTokens(fits, Split(pattern), Split(key)))
            <==> MatchTokens(fits, Split(pattern), Split(pattern))
  {
    hide Split, MatchTokens;
    forall key | MatchTokens(fits, Split(pattern), Split(pattern))
      ensures TopicMatches(fits, pattern, key) == MatchTokens(fits, Split(pattern), Split(key))
    {
      if pattern == "#" {
        HashMatchesAll(fits, key);
      }
    }
    assert TopicMatches(fits, pattern, pattern);
  }

  lemma {:induction false} SelfMatchIff(fits: (string, string) -> bool, pattern: seq<string>)
    requires "#" !in pattern
    ensures MatchTokens(fits, pattern, pattern) <==> forall w :: w in pattern && Literal(w) ==> fits(w, w)
    decreases |pattern|
  {
    if pattern != [] {
      SelfMatchIff(fits, pattern[1..]);
      assert pattern == [pattern[0]] + pattern[1..];
    }
  }

  /** Whatever the pattern, closed brackets are the only thing that can make a shortcut matter. */
  lemma ShortcutsAreSound(inClass: (string, char) -> bool, pattern: string, routingKey: string)
    requires forall w :: w in Split(pattern) && Literal(w) ==> !Bracketed(w)
    ensures TopicMatches(Fnmatch(inClass), pattern, routingKey) == MatchTokens(Fnmatch(inClass), Split(pattern), Split(routingKey))
  {
    var fits, ps := Fnmatch(inClass), Split(pattern);
    forall i | 0 <= i < |ps| && Literal(ps[i]) ensures fits(ps[i], ps[i]) {
      assert ps[i] in ps;
      FitsItselfIff(inClass, ps[i]);
    }
    PatternMatchesItself(fits, ps);
    ShortcutsSoundIff(fits, pattern);
  }

  /** For patterns without `#` and without `*` inside a word: sound exactly when no bracket is closed. */
  lemma ShortcutsSoundIffNoBrackets(inClass: (string, char) -> bool, pattern: string)
    requires "#" !in Split(pattern) && forall w :: w in Split(pattern) && Literal(w) ==> '*' !in w
    ensures (forall key :: TopicMatches(Fnmatch(inClass), pattern, key) == MatchTokens(Fnmatch(inClass), Split(pattern), Split(key)))
            <==> forall w :: w in Split(pattern) && Literal(w) ==> !Bracketed(w)
  {
    hide MatchTokens, Split, Fnmatch, Bracketed, Literal;
    var fits, ps := Fnmatch(inClass), Split(pattern);
    ShortcutsSoundIff(fits, pattern);
    SelfMatchIff(fits, ps);
    forall w | w in ps && Literal(w) ensures fits(w, w) <==> !Bracketed(w) {
      FitsItselfIff(inClass, w);
    }
  }

  // ----- When the string-level test means what AMQP says -----

  ghost predicate MeansAmqp(fits: (string, string) -> bool, pattern: string, key: string) {
    TopicMatches(fits, pattern, key) == MatchTokens(Equal, Split(pattern), Split(key))
  }

  lemma {:induction false} AllLiteralMatch(f: (string, string) -> bool, pattern: seq<string>, key: seq<string>)
    requires AllLiteral(pattern)
    ensures MatchTokens(f, pattern, key) <==>
            |key| == |pattern| && forall i :: 0 <= i < |key| ==> f(key[i], pattern[i])
    decreases |pattern|
  {
    if pattern != [] {
      assert pattern[0] in pattern && forall w :: w in pattern[1..] ==> w in pattern;
      if key != [] {
        AllLiteralMatch(f, pattern[1..], key[1..]);
        assert key == [key[0]] + key[1..] && pattern == [pattern[0]] + pattern[1..];
      }
    }
  }

  lemma SameText(pattern: string, key: string)
    requires AllLiteral(Split(pattern))
    ensures MatchTokens(Equal, Split(pattern), Split(key)) <==> key == pattern
  {
    AllLiteralMatch(Equal, Split(pattern), Split(key));
    if MatchTokens(Equal, Split(pattern), Split(key)) {
      assert Split(pattern) == Split(key);
      JoinSplit(pattern);
      JoinSplit(key);
    }
  }

  /** With glob-free literals the shortcuts and the globs change nothing. */
  lemma GlobFreeMeansAmqp(inClass: (string, char) -> bool, pattern: string, key: string)
    requires forall w :: w in Split(pattern) && Literal(w) ==> GlobFree(w)
    ensures MeansAmqp(Fnmatch(inClass), pattern, key)
  {
    hide Split, MatchTokens, GlobFree, Fnmatch, Bracketed;
    TokensAgreeIff(inClass, pattern);
    forall w | w in Split(pattern) && Literal(w) ensures !Bracketed(w) {
      GlobFreeNotBracketed(w);
    }
    ShortcutsAreSound(inClass, pattern, key);
  }

  lemma EmptyClassMeansAmqp(inClass: (string, char) -> bool, pattern: string, key: string, w: string)
    requires AllLiteral(Split(pattern)) && w in Split(pattern) && HoldsNothing(inClass, w)
    ensures MeansAmqp(Fnmatch(inClass), pattern, key)
  {
    hide Split, Fnmatch, HoldsNothing;
    SameText(pattern, key);
    AllLiteralMatch(Fnmatch(inClass), Split(pattern), Split(key));
    var i :| 0 <= i < |Split(pattern)| && Split(pattern)[i] == w;
    if i < |Split(key)| {
      FitsNothing(inClass, w, Split(key)[i]);
    }
    NotHash(pattern);
  }

  lemma NotHash(pattern: string)
    requires AllLiteral(Split(pattern))
    ensures pattern != "#"
  {
    OneWord("#");
    assert "#" in Split("#");
  }

  /** Words that fit the pattern's literals one by one. */
  lemma {:induction false} FittingKey(inClass: (string, char) -> bool, pattern: seq<string>) returns (key: seq<string>)
    requires Words(pattern) && forall w :: w in pattern ==> !HoldsNothing(inClass, w)
    ensures |key| == |pattern| && Words(key)
    ensures forall i :: 0 <= i < |key| ==> Fnmatch(inClass)(key[i], pattern[i])
  {
    hide Fnmatch, HoldsNothing;
    key := [];
    if pattern != [] {
      assert pattern[0] in pattern && forall w :: w in pattern[1..] ==> w in pattern;
      var first := SomeWordFits(inClass, pattern[0]);
      var rest := FittingKey(inClass, pattern[1..]);
      key := [first] + rest;
    }
  }

  /** An all-literal pattern with glob characters, each of whose words some word fits, receives a key other than itself. */
  lemma OtherKeyMatches(inClass: (string, char) -> bool, pattern: string, p: string) returns (key: string)
    requires AllLiteral(Split(pattern)) && p in Split(pattern) && !GlobFree(p)
    requires forall w :: w in Split(pattern) ==> !HoldsNothing(inClass, w)
    ensures !MeansAmqp(Fnmatch(inClass), pattern, key)
  {
    hide Fnmatch, HoldsNothing, GlobFree, Split;
    var ps, fits := Split(pattern), Fnmatch(inClass);
    var words := FittingKey(inClass, ps);
    var i :| 0 <= i < |ps| && ps[i] == p;
    if words[i] == p {
      var w := OtherWord(inClass, p);
      words := words[i := w];
    }
    SplitJoin(words);
    key := Join(words);
    AllLiteralMatch(fits, ps, words);
    SameText(pattern, key);
  }

  lemma OtherWord(inClass: (string, char) -> bool, p: string) returns (w: string)
    requires Word(p) && !GlobFree(p) && Fnmatch(inClass)(p, p)
    ensures Word(w) && w != p && Fnmatch(inClass)(w, p)
  {
    w := OtherWordFits(inClass, p);
  }

  /**
   Routing agrees with the AMQP rules on all keys exactly when no literal word has glob characters,
   or the pattern has neither `*` nor `#` and one of its words has a class that holds no character.
   */
  lemma AgreesWithAmqpIff(inClass: (string, char) -> bool, pattern: string)
    ensures (forall key :: MeansAmqp(Fnmatch(inClass), pattern, key)) <==>
            || (forall w :: w in Split(pattern) && Literal(w) ==> GlobFree(w))
            || (AllLiteral(Split(pattern)) && exists w :: w in Split(pattern) && HoldsNothing(inClass, w))
  {
    hide MeansAmqp, GlobFree, HoldsNothing, Fnmatch, Split, Literal;
    var ps := Split(pattern);
    if forall w :: w in ps && Literal(w) ==> GlobFree(w) {
      forall key ensures MeansAmqp(Fnmatch(inClass), pattern, key) { GlobFreeMeansAmqp(inClass, pattern, key); }
    } else {
      var p :| p in ps && Literal(p) && !GlobFree(p);
      if !AllLiteral(ps) {
        var key := WildcardDisagrees(inClass, pattern, p);
      } else if w :| w in ps && HoldsNothing(inClass, w) {
        forall key ensures MeansAmqp(Fnmatch(inClass), pattern, key) { EmptyClassMeansAmqp(inClass, pattern, key, w); }
      } else {
        var key := OtherKeyMatches(inClass, pattern, p);
      }
    }
  }

  lemma WildcardDisagrees(inClass: (string, char) -> bool, pattern: string, p: string) returns (key: string)
    requires !AllLiteral(Split(pattern)) && p in Split(pattern) && Literal(p) && !GlobFree(p)
    ensures !MeansAmqp(Fnmatch(inClass), pattern, key)
  {
    hide GlobFree, Fnmatch, MatchTokens, FitsOnlyItself, Split;
    var ps := Split(pattern);
    FitsOnlyItselfIff(inClass, p);
    var words := DisagreementKey(Fnmatch(inClass), ps, p);
    SplitJoin(words);
    key := Join(words);
    if pattern == "#" { OneWord("#"); }
  }
}
