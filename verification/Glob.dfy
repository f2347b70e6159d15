/**
 Python's `fnmatchcase` on one word: `*` stands for any characters, `?` for one, a closed bracket
 for one character of a class, and everything else for itself.  Which characters a class holds is
 decided by the regular expression that the text between the brackets is turned into; it is the
 parameter `inClass`.
 */
module Glob {
  import opened Wrappers

  datatype Item = Star | Any | Class(text: string) | Lit(c: char)

  /** The first `]` at or after position `j`. */
  function ClosingFrom(s: string, j: nat): (k: Option<nat>)
    ensures k.Some? ==> j <= k.value < |s| && s[k.value] == ']'
    decreases |s| - j
  {
    if j >= |s| then None else if s[j] == ']' then Some(j) else ClosingFrom(s, j + 1)
  }

  /** Where the class that begins after an opening bracket ends; a leading `!` and a first `]` belong to it. */
  function Closing(s: string): (k: Option<nat>)
    ensures k.Some? ==> 0 < k.value < |s|
  {
    ClosingFrom(s, if s != "" && s[0] == '!' then 2 else 1)
  }

  function Items(p: string): seq<Item>
    decreases |p|
  {
    if p == "" then []
    else if p[0] == '*' then [Star] + Items(p[1..])
    else if p[0] == '?' then [Any] + Items(p[1..])
    else if p[0] == '[' && Closing(p[1..]).Some? then
      var k := Closing(p[1..]).value;
      [Class(p[1..][..k])] + Items(p[1..][k + 1..])
    else [Lit(p[0])] + Items(p[1..])
  }

  predicate Accepts(inClass: (string, char) -> bool, item: Item, c: char) {
    match item
    case Star => true
    case Any => true
    case Class(text) => inClass(text, c)
    case Lit(d) => c == d
  }

  predicate Matches(inClass: (string, char) -> bool, items: seq<Item>, w: string)
    decreases |items|, |w|
  {
    if items == [] then w == ""
    else if items[0].Star? then Matches(inClass, items[1..], w) || (w != "" && Matches(inClass, items, w[1..]))
    else w != "" && Accepts(inClass, items[0], w[0]) && Matches(inClass, items[1..], w[1..])
  }

  /** `fnmatchcase(w, p)` */
  function Fnmatch(inClass: (string, char) -> bool): (string, string) -> bool {
    (w: string, p: string) => Matches(inClass, Items(p), w)
  }

  /** Item i covers the characters from cuts[i] up to cuts[i + 1]: any for a star, else one that it accepts. */
  ghost predicate Cut(inClass: (string, char) -> bool, items: seq<Item>, w: string, cuts: seq<nat>) {
    && |cuts| == |items| + 1 && cuts[0] == 0 && cuts[|items|] == |w|
    && forall i, j :: 0 <= i && j == i + 1 < |cuts| ==>
         && cuts[i] <= cuts[j] <= |w|
         && (items[i] != Star ==> cuts[j] == cuts[i] + 1 && Accepts(inClass, items[i], w[cuts[i]]))
  }

  /** A word that matches can be cut up, one piece for each item. */
  lemma {:induction false} MatchesCut(inClass: (string, char) -> bool, items: seq<Item>, w: string) returns (cuts: seq<nat>)
    requires Matches(inClass, items, w)
    ensures Cut(inClass, items, w, cuts)
    decreases |items|, |w|
  {
    hide Cut;
    if items == [] {
      cuts := [0];
      CutNothing(inClass);
    } else if items[0].Star? && !Matches(inClass, items[1..], w) {
      var rest := MatchesCut(inClass, items, w[1..]);
      cuts := CutLonger(inClass, items, w, rest);
    } else {
      var n := if items[0].Star? then 0 else 1;
      assert w[0..] == w;
      var rest := MatchesCut(inClass, items[1..], w[n..]);
      cuts := CutFirst(inClass, items, w, n, rest);
    }
  }

  lemma CutNothing(inClass: (string, char) -> bool)
    ensures Cut(inClass, [], "", [0])
  {}

  /** A leading star takes one character more. */
  lemma CutLonger(inClass: (string, char) -> bool, items: seq<Item>, w: string, rest: seq<nat>) returns (cuts: seq<nat>)
    requires items != [] && items[0].Star? && w != "" && Cut(inClass, items, w[1..], rest)
    ensures Cut(inClass, items, w, cuts)
  {
    cuts := [0] + seq(|items|, i requires 0 <= i < |items| => rest[i + 1] + 1);
    forall i, j | 0 <= i && j == i + 1 < |cuts|
      ensures cuts[i] <= cuts[j] <= |w|
      ensures items[i] != Star ==> cuts[j] == cuts[i] + 1 && Accepts(inClass, items[i], w[cuts[i]])
    {
      assert rest[i] <= rest[j] <= |w[1..]|;
    }
  }

  lemma CutFirst(inClass: (string, char) -> bool, items: seq<Item>, w: string, n: nat, rest: seq<nat>)
    returns (cuts: seq<nat>)
    requires items != [] && n <= |w| && Cut(inClass, items[1..], w[n..], rest)
    requires if items[0].Star? then n == 0 else n == 1 && Accepts(inClass, items[0], w[0])
    ensures Cut(inClass, items, w, cuts)
  {
    cuts := [0] + seq(|items|, i requires 0 <= i < |items| => rest[i] + n);
    forall i, j | 0 <= i && j == i + 1 < |cuts|
      ensures cuts[i] <= cuts[j] <= |w|
      ensures items[i] != Star ==> cuts[j] == cuts[i] + 1 && Accepts(inClass, items[i], w[cuts[i]])
    {
      if i > 0 {
        var h := i - 1;
        assert rest[h] <= rest[i] <= |w[n..]| && items[1..][h] == items[i];
      }
    }
  }

  lemma {:induction false} StarEats(inClass: (string, char) -> bool, items: seq<Item>, w: string, n: nat)
    requires items != [] && items[0].Star? && n <= |w| && Matches(inClass, items[1..], w[n..])
    ensures Matches(inClass, items, w)
    decreases n
  {
    if n == 0 {
      assert w[0..] == w;
    } else {
      assert w[1..][n - 1..] == w[n..];
      StarEats(inClass, items, w[1..], n - 1);
    }
  }

  lemma {:induction false} CutMatches(inClass: (string, char) -> bool, items: seq<Item>, w: string, cuts: seq<nat>)
    requires Cut(inClass, items, w, cuts)
    ensures Matches(inClass, items, w)
    decreases |items|
  {
    if items != [] {
      var n, first, second := cuts[1], 0, 1;
      assert cuts[first] <= cuts[second];
      CutsRise(inClass, items, w, cuts);
      var rest := seq(|items|, i requires 0 <= i < |items| => if cuts[i + 1] >= n then cuts[i + 1] - n else 0);
      assert Cut(inClass, items[1..], w[n..], rest);
      CutMatches(inClass, items[1..], w[n..], rest);
      if items[0].Star? {
        StarEats(inClass, items, w, n);
      }
    }
  }

  lemma {:induction false} CutsRise(inClass: (string, char) -> bool, items: seq<Item>, w: string, cuts: seq<nat>)
    requires Cut(inClass, items, w, cuts) && items != []
    ensures forall i :: 1 <= i < |cuts| ==> cuts[1] <= cuts[i] <= |w|
  {
    var k := 1;
    while k < |cuts| - 1
      invariant 1 <= k < |cuts|
      invariant forall i :: 1 <= i <= k ==> cuts[1] <= cuts[i] <= |w|
    {
      var next := k + 1;
      assert cuts[k] <= cuts[next] <= |w|;
      k := next;
    }
  }

  /** The recursive matcher accepts exactly the words that can be cut up to fit the items. */
  lemma MatchesIffCut(inClass: (string, char) -> bool, items: seq<Item>, w: string)
    ensures Matches(inClass, items, w) <==> exists cuts :: Cut(inClass, items, w, cuts)
  {
    if Matches(inClass, items, w) {
      var cuts := MatchesCut(inClass, items, w);
    }
    if cuts :| Cut(inClass, items, w, cuts) {
      CutMatches(inClass, items, w, cuts);
    }
  }

  lemma {:induction false} ClosingIsFirst(s: string, j: nat, k: nat)
    requires j <= k < |s| && s[k] == ']' && forall i :: j <= i < k ==> s[i] != ']'
    ensures ClosingFrom(s, j) == Some(k)
    decreases k - j
  {
    if j < k { ClosingIsFirst(s, j + 1, k); }
  }

  /** How a pattern is read, from left to right. */
  lemma ItemsAre(c: char, text: string, rest: string)
    ensures Items("") == [] && Items("*" + rest) == [Star] + Items(rest) && Items("?" + rest) == [Any] + Items(rest)
    ensures c != '*' && c != '?' && c != '[' ==> Items([c] + rest) == [Lit(c)] + Items(rest)
    ensures text != "" && ']' !in text && text[0] != '!' ==> Items("[" + text + "]" + rest) == [Class(text)] + Items(rest)
    ensures ']' !in rest ==> Items("[" + rest) == [Lit('[')] + Items(rest)
  {
    FirstItem('*', rest);
    FirstItem('?', rest);
    if c != '[' { FirstItem(c, rest); }
    hide Items;
    if text != "" && ']' !in text && text[0] != '!' { ClassItem(text, rest); }
    if ']' !in rest { OpenBracketItem(rest); }
  }

  lemma FirstItem(c: char, rest: string)
    requires c != '['
    ensures Items("") == []
    ensures Items([c] + rest) == [if c == '*' then Star else if c == '?' then Any else Lit(c)] + Items(rest)
  {
    assert ([c] + rest)[1..] == rest;
  }

  lemma ClassItem(text: string, rest: string)
    requires text != "" && ']' !in text && text[0] != '!'
    ensures Items("[" + text + "]" + rest) == [Class(text)] + Items(rest)
  {
    var s := "[" + text + "]" + rest;
    var t := s[1..];
    assert t == text + "]" + rest && t[0] == text[0];
    forall i | 1 <= i < |text| ensures t[i] != ']' { assert t[i] == text[i]; }
    ClosingIsFirst(t, 1, |text|);
    assert t[..|text|] == text && t[|text| + 1..] == rest;
  }

  lemma OpenBracketItem(rest: string)
    requires ']' !in rest
    ensures Items("[" + rest) == [Lit('[')] + Items(rest)
  {
    assert ("[" + rest)[1..] == rest;
    NeverCloses(rest, if rest != "" && rest[0] == '!' then 2 else 1);
  }

  lemma {:induction false} NeverCloses(s: string, j: nat)
    requires ']' !in s
    ensures ClosingFrom(s, j) == None
    decreases |s| - j
  {
    if j < |s| { NeverCloses(s, j + 1); }
  }

  // ----- Words without glob characters -----

  /** No `*`, no `?` and no closed bracket. */
  ghost predicate GlobFree(p: string) {
    && '*' !in p && '?' !in p
    && forall i :: 0 <= i < |p| && p[i] == '[' ==> Closing(p[i + 1..]).None?
  }

  ghost predicate Plain(items: seq<Item>) {
    forall i :: 0 <= i < |items| ==> items[i].Lit?
  }

  lemma GlobFreeTail(p: string)
    requires p != ""
    ensures GlobFree(p) <==> GlobFree(p[1..]) && p[0] != '*' && p[0] != '?' && (p[0] == '[' ==> Closing(p[1..]).None?)
  {
    var q := p[1..];
    assert p == [p[0]] + q;
    assert forall i :: 0 <= i < |q| ==> q[i] == p[i + 1] && q[i + 1..] == p[i + 2..];
    if GlobFree(q) && p[0] != '*' && p[0] != '?' && (p[0] == '[' ==> Closing(q).None?) {
      forall i | 0 <= i < |p| && p[i] == '[' ensures Closing(p[i + 1..]).None? {
        if i > 0 {
          assert q[i - 1] == '[' && q[i..] == p[i + 1..];
        }
      }
    }
    if GlobFree(p) {
      forall i | 0 <= i < |q| && q[i] == '[' ensures Closing(q[i + 1..]).None? {
        assert p[i + 1] == '[';
      }
    }
  }

  lemma {:induction false} PlainIff(p: string)
    ensures Plain(Items(p)) <==> GlobFree(p)
    decreases |p|
  {
    if p != "" {
      GlobFreeTail(p);
      PlainIff(p[1..]);
      assert Items(p)[0].Lit? ==> Items(p)[1..] == Items(p[1..]);
      assert Plain(Items(p)) ==> Items(p)[0].Lit?;
    }
  }

  lemma {:induction false} PlainFitsItself(inClass: (string, char) -> bool, p: string, w: string)
    requires Plain(Items(p))
    ensures Matches(inClass, Items(p), w) <==> w == p
    decreases |p|
  {
    if p != "" {
      assert Items(p)[0].Lit? && Items(p)[1..] == Items(p[1..]);
      assert Plain(Items(p[1..]));
      if w != "" {
        PlainFitsItself(inClass, p[1..], w[1..]);
        assert w == [w[0]] + w[1..] && p == [p[0]] + p[1..];
      }
    }
  }

  // ----- Words with glob characters -----

  /** Where there is a star, a matching word can be made longer. */
  lemma {:induction false} Longer(inClass: (string, char) -> bool, items: seq<Item>, w: string) returns (v: string)
    requires Matches(inClass, items, w) && Star in items
    ensures Matches(inClass, items, v) && |v| == |w| + 1 && ('.' in v ==> '.' in w)
    decreases |items|
  {
    if items[0].Star? {
      v := "x" + w;
      assert v[1..] == w;
    } else {
      v := Longer(inClass, items[1..], w[1..]);
      v := [w[0]] + v;
      assert v[1..] == v[1..];
    }
  }

  lemma {:induction false} SameLength(inClass: (string, char) -> bool, items: seq<Item>, w: string)
    requires Matches(inClass, items, w) && Star !in items
    ensures |w| == |items|
    decreases |items|
  {
    if items != [] {
      SameLength(inClass, items[1..], w[1..]);
    }
  }

  /** A class takes at least three characters of the pattern and one of the word. */
  lemma {:induction false} ItemsShrink(p: string)
    ensures |Items(p)| <= |p|
    ensures (exists i :: 0 <= i < |Items(p)| && Items(p)[i].Class?) ==> |Items(p)| < |p|
    decreases |p|
  {
    if p != "" {
      if p[0] == '[' && Closing(p[1..]).Some? {
        ItemsShrink(p[1..][Closing(p[1..]).value + 1..]);
      } else {
        ItemsShrink(p[1..]);
        assert Items(p)[1..] == Items(p[1..]) && !Items(p)[0].Class?;
      }
    }
  }

  /** Where `?` stands, any other character does as well. */
  lemma {:induction false} Otherwise(inClass: (string, char) -> bool, items: seq<Item>, w: string) returns (v: string)
    requires Matches(inClass, items, w) && Any in items && Star !in items
    ensures Matches(inClass, items, v) && v != w && ('.' in v ==> '.' in w)
    decreases |items|
  {
    if items[0].Any? {
      v := [if w[0] == 'x' then 'y' else 'x'] + w[1..];
      assert v[1..] == w[1..] && v[0] != w[0];
    } else {
      var t := Otherwise(inClass, items[1..], w[1..]);
      v := [w[0]] + t;
      assert v[1..] == t;
    }
  }

  /** A word that is not free of glob characters does not fit itself, or some other word fits it too. */
  lemma OtherWordFits(inClass: (string, char) -> bool, p: string) returns (v: string)
    requires !GlobFree(p) && Matches(inClass, Items(p), p) && '.' !in p
    ensures v != p && '.' !in v && Matches(inClass, Items(p), v)
  {
    PlainIff(p);
    var items := Items(p);
    if Star in items {
      v := Longer(inClass, items, p);
    } else {
      SameLength(inClass, items, p);
      ItemsShrink(p);
      var i :| 0 <= i < |items| && !items[i].Lit?;
      assert items[i] == Any;
      v := Otherwise(inClass, items, p);
    }
  }

  /** A word whose only glob characters are `*` and `?` fits itself; one with a class and no `*` does not. */
  lemma {:induction false} FitsItself(inClass: (string, char) -> bool, p: string)
    ensures (forall i :: 0 <= i < |Items(p)| ==> !Items(p)[i].Class?) ==> Matches(inClass, Items(p), p)
    ensures Star !in Items(p) && (exists i :: 0 <= i < |Items(p)| && Items(p)[i].Class?) ==> !Matches(inClass, Items(p), p)
    decreases |p|
  {
    var items := Items(p);
    ItemsShrink(p);
    if Matches(inClass, items, p) && Star !in items {
      SameLength(inClass, items, p);
    }
    if p != "" && forall i :: 0 <= i < |items| ==> !items[i].Class? {
      assert items[0] in items && items[1..] == Items(p[1..]);
      FitsItself(inClass, p[1..]);
      if items[0].Star? {
        StarEatsOne(inClass, items, p);
      }
    }
  }

  lemma StarEatsOne(inClass: (string, char) -> bool, items: seq<Item>, w: string)
    requires items != [] && items[0].Star? && w != "" && Matches(inClass, items[1..], w[1..])
    ensures Matches(inClass, items, w)
  {
    assert Matches(inClass, items, w[1..]);
  }

  /** A bracket that is closed. */
  ghost predicate Bracketed(p: string) {
    exists i :: 0 <= i < |p| && p[i] == '[' && Closing(p[i + 1..]).Some?
  }

  lemma BracketedTail(p: string)
    requires p != ""
    ensures Bracketed(p) <==> Bracketed(p[1..]) || (p[0] == '[' && Closing(p[1..]).Some?)
  {
    var q := p[1..];
    if i :| 0 <= i < |q| && q[i] == '[' && Closing(q[i + 1..]).Some? {
      assert p[i + 1] == '[' && p[i + 2..] == q[i + 1..];
    }
    if i :| 0 < i < |p| && p[i] == '[' && Closing(p[i + 1..]).Some? {
      assert q[i - 1] == '[' && q[i..] == p[i + 1..];
    }
  }

  /** Classes show in the text as closed brackets, and stars as stars. */
  lemma {:induction false} ItemsOfText(p: string)
    ensures '*' !in p ==> Star !in Items(p)
    ensures (exists i :: 0 <= i < |Items(p)| && Items(p)[i].Class?) <==> Bracketed(p)
    decreases |p|
  {
    if p != "" {
      BracketedTail(p);
      if p[0] == '[' && Closing(p[1..]).Some? {
        ItemsOfText(p[1..][Closing(p[1..]).value + 1..]);
        assert Items(p)[0].Class?;
      } else {
        ItemsOfText(p[1..]);
        assert Items(p)[1..] == Items(p[1..]) && !Items(p)[0].Class?;
      }
    }
  }

  /** A word fits itself if no bracket is closed, and if it has no `*` only then. */
  lemma FitsItselfIff(inClass: (string, char) -> bool, p: string)
    ensures !Bracketed(p) ==> Fnmatch(inClass)(p, p)
    ensures '*' !in p ==> (Fnmatch(inClass)(p, p) <==> !Bracketed(p))
  {
    ItemsOfText(p);
    FitsItself(inClass, p);
  }

  lemma GlobFreeNotBracketed(p: string)
    requires GlobFree(p)
    ensures !Bracketed(p)
  {}

  // ----- Words that nothing fits -----

  ghost predicate Hollow(inClass: (string, char) -> bool, item: Item) {
    item.Class? && forall c :: c != '.' ==> !inClass(item.text, c)
  }

  /** The word has a class without a single character that can occur in a key word. */
  ghost predicate HoldsNothing(inClass: (string, char) -> bool, p: string) {
    exists item :: item in Items(p) && Hollow(inClass, item)
  }

  lemma {:induction false} FitsNothing(inClass: (string, char) -> bool, p: string, w: string)
    requires HoldsNothing(inClass, p) && '.' !in w
    ensures !Fnmatch(inClass)(w, p)
  {
    var item :| item in Items(p) && Hollow(inClass, item);
    NoMatch(inClass, Items(p), item, w);
  }

  lemma {:induction false} NoMatch(inClass: (string, char) -> bool, items: seq<Item>, item: Item, w: string)
    requires item in items && Hollow(inClass, item) && '.' !in w
    ensures !Matches(inClass, items, w)
    decreases |items|, |w|
  {
    if items[0].Star? {
      NoMatch(inClass, items[1..], item, w);
      if w != "" { NoMatch(inClass, items, item, w[1..]); }
    } else if items[0] != item && w != "" {
      NoMatch(inClass, items[1..], item, w[1..]);
    }
  }

  lemma {:induction false} SomeWordFits(inClass: (string, char) -> bool, p: string) returns (w: string)
    requires !HoldsNothing(inClass, p) && '.' !in p
    ensures '.' !in w && Fnmatch(inClass)(w, p)
  {
    LiteralsOfText(p);
    w := SomeMatch(inClass, Items(p));
  }

  lemma {:induction false} LiteralsOfText(p: string)
    requires '.' !in p
    ensures Lit('.') !in Items(p)
    decreases |p|
  {
    if p != "" {
      if p[0] == '[' && Closing(p[1..]).Some? {
        LiteralsOfText(p[1..][Closing(p[1..]).value + 1..]);
      } else {
        LiteralsOfText(p[1..]);
      }
    }
  }

  lemma {:induction false} SomeMatch(inClass: (string, char) -> bool, items: seq<Item>) returns (w: string)
    requires Lit('.') !in items && forall item :: item in items ==> !Hollow(inClass, item)
    ensures '.' !in w && Matches(inClass, items, w)
  {
    w := "";
    if items != [] {
      assert items[0] in items && forall item :: item in items[1..] ==> item in items;
      var rest := SomeMatch(inClass, items[1..]);
      match items[0] {
        case Star => w := rest;
        case Any => w := ['x'] + rest;
        case Class(text) =>
          var c :| c != '.' && inClass(text, c);
          w := [c] + rest;
        case Lit(c) => w := [c] + rest;
      }
      assert !items[0].Star? ==> w[1..] == rest;
    }
  }
}
