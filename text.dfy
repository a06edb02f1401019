/**
 * The few string operations of Ruby's core library that the SSH configuration
 * code relies on, stated on `seq<char>`: `strip`, the awk-style `split(" ")`,
 * `split("\n")`, `join("\n")` and `downcase`.
 */
module Text {

  /** Characters removed by `String#strip` at either end: NUL, tab, line feed,
      vertical tab, form feed, carriage return and space. */
  predicate IsStripSpace(c: char) {
    c == '\0' || c == '\t' || c == '\n' || c == '\U{B}' || c == '\U{C}' || c == '\r' || c == ' '
  }

  /** Separators of the awk-style `String#split(" ")`: ASCII white space (NUL is not one). */
  predicate IsSplitSpace(c: char) {
    c == '\t' || c == '\n' || c == '\U{B}' || c == '\U{C}' || c == '\r' || c == ' '
  }

  predicate AllStripSpace(s: string) {
    forall i | 0 <= i < |s| :: IsStripSpace(s[i])
  }

  predicate NoStripSpace(s: string) {
    forall i | 0 <= i < |s| :: !IsStripSpace(s[i])
  }

  /** A token of `split(" ")`: non-empty and free of separators. */
  predicate IsToken(w: string) {
    w != [] && forall i | 0 <= i < |w| :: !IsSplitSpace(w[i])
  }

  // ---------------------------------------------------------------------------
  // strip

  /** `lstrip`: the string with its leading white space dropped. */
  function TrimLeft(s: string): string
  {
    if s != [] && IsStripSpace(s[0]) then TrimLeft(s[1..]) else s
  }

  /** `rstrip`: the string with its trailing white space dropped. */
  function TrimRight(s: string): string
  {
    if s != [] && IsStripSpace(s[|s| - 1]) then TrimRight(s[..|s| - 1]) else s
  }

  /** `strip`: white space removed at both ends. */
  function Strip(s: string): string
  {
    TrimRight(TrimLeft(s))
  }

  /** `lstrip` drops a white-space prefix, all of it. */
  lemma {:induction false} TrimLeftSpec(s: string)
    ensures |TrimLeft(s)| <= |s| && TrimLeft(s) == s[|s| - |TrimLeft(s)|..]
    ensures TrimLeft(s) == [] || !IsStripSpace(TrimLeft(s)[0])
    ensures AllStripSpace(s[..|s| - |TrimLeft(s)|])
  {
    if s != [] && IsStripSpace(s[0]) {
      TrimLeftSpec(s[1..]);
      var r := TrimLeft(s[1..]);
      assert s[..|s| - |r|] == [s[0]] + s[1..][..|s| - 1 - |r|];
    }
  }

  /** `rstrip` drops a white-space suffix, all of it. */
  lemma {:induction false} TrimRightSpec(s: string)
    ensures |TrimRight(s)| <= |s| && TrimRight(s) == s[..|TrimRight(s)|]
    ensures TrimRight(s) == [] || !IsStripSpace(TrimRight(s)[|TrimRight(s)| - 1])
    ensures AllStripSpace(s[|TrimRight(s)|..])
  {
    if s != [] && IsStripSpace(s[|s| - 1]) {
      TrimRightSpec(s[..|s| - 1]);
      var r := TrimRight(s[..|s| - 1]);
      assert s[|r|..] == s[..|s| - 1][|r|..] + [s[|s| - 1]];
    }
  }

  /** `strip` leaves nothing exactly when the whole string is white space
      (this is the test `line.strip.empty?`); otherwise what it leaves begins
      and ends with a character that is not white space. */
  lemma StripSpec(s: string)
    ensures Strip(s) == [] <==> AllStripSpace(s)
    ensures Strip(s) != [] ==> !IsStripSpace(Strip(s)[0]) && !IsStripSpace(Strip(s)[|Strip(s)| - 1])
  {
    var l := TrimLeft(s);
    var r := TrimRight(l);
    TrimLeftSpec(s);
    TrimRightSpec(l);
    if r == [] {
      assert s == s[..|s| - |l|] + l[|r|..];
    } else {
      assert s[|s| - |l|] == r[0];
    }
  }

  lemma {:induction false} TrimLeftPadded(a: string, t: string)
    requires AllStripSpace(a)
    requires t == [] || !IsStripSpace(t[0])
    ensures TrimLeft(a + t) == t
  {
    if a != [] {
      assert (a + t)[1..] == a[1..] + t;
      TrimLeftPadded(a[1..], t);
    }
  }

  lemma {:induction false} TrimRightPadded(t: string, b: string)
    requires AllStripSpace(b)
    requires t == [] || !IsStripSpace(t[|t| - 1])
    ensures TrimRight(t + b) == t
  {
    if b != [] {
      assert (t + b)[..|t + b| - 1] == t + b[..|b| - 1];
      TrimRightPadded(t, b[..|b| - 1]);
    }
  }

  /** Stripping a string padded with white space on both sides gives back the
      string inside the padding, as long as that string does not itself begin
      or end with white space. */
  lemma StripPadded(a: string, t: string, b: string)
    requires AllStripSpace(a) && AllStripSpace(b)
    requires t != [] ==> !IsStripSpace(t[0]) && !IsStripSpace(t[|t| - 1])
    ensures Strip(a + t + b) == t
  {
    if t == [] {
      assert a + t + b == a + b;
      TrimLeftPadded(a + b, []);
      assert a + b + [] == a + b;
      TrimRightPadded([], []);
    } else {
      assert a + t + b == a + (t + b);
      TrimLeftPadded(a, t + b);
      TrimRightPadded(t, b);
    }
  }

  // ---------------------------------------------------------------------------
  // split(" ")

  /** The string with its leading separators dropped. */
  function SkipSpace(s: string): (r: string)
    ensures |r| <= |s|
  {
    if s != [] && IsSplitSpace(s[0]) then SkipSpace(s[1..]) else s
  }

  /** The longest prefix free of separators. */
  function Word(s: string): (r: string)
    ensures |r| <= |s|
    ensures s != [] && !IsSplitSpace(s[0]) ==> r != []
  {
    if s == [] || IsSplitSpace(s[0]) then [] else [s[0]] + Word(s[1..])
  }

  /** `SkipSpace` drops exactly the leading separators. */
  lemma {:induction false} SkipSpaceSpec(s: string)
    ensures SkipSpace(s) == s[|s| - |SkipSpace(s)|..]
    ensures SkipSpace(s) == [] || !IsSplitSpace(SkipSpace(s)[0])
    ensures forall i | 0 <= i < |s| - |SkipSpace(s)| :: IsSplitSpace(s[i])
  {
    if s != [] && IsSplitSpace(s[0]) {
      SkipSpaceSpec(s[1..]);
      var r := SkipSpace(s[1..]);
      assert forall i | 1 <= i < |s| - |r| :: s[i] == s[1..][i - 1];
    }
  }

  /** `Word` takes exactly the leading non-separators. */
  lemma {:induction false} WordSpec(s: string)
    ensures Word(s) == s[..|Word(s)|]
    ensures forall i | 0 <= i < |Word(s)| :: !IsSplitSpace(Word(s)[i])
    ensures |Word(s)| == |s| || IsSplitSpace(s[|Word(s)|])
  {
    if s != [] && !IsSplitSpace(s[0]) {
      WordSpec(s[1..]);
      var r := Word(s[1..]);
      assert Word(s) == [s[0]] + r;
      forall i | 0 <= i < |Word(s)|
        ensures !IsSplitSpace(Word(s)[i])
      {
        if i > 0 {
          assert Word(s)[i] == r[i - 1];
        }
      }
    }
  }

  /** The awk-style `split(" ")`: the maximal runs of non-separators, in order. */
  function Tokens(s: string): seq<string>
    decreases |s|
  {
    var t := SkipSpace(s);
    if t == [] then []
    else
      var w := Word(t);
      [w] + Tokens(t[|w|..])
  }

  /** Every token is a non-empty run of non-separators. */
  lemma {:induction false} TokensAreTokens(s: string)
    ensures forall k | 0 <= k < |Tokens(s)| :: IsToken(Tokens(s)[k])
    decreases |s|
  {
    var t := SkipSpace(s);
    if t != [] {
      var w := Word(t);
      var rest := t[|w|..];
      SkipSpaceSpec(s);
      WordSpec(t);
      TokensAreTokens(rest);
      assert Tokens(s) == [w] + Tokens(rest);
      forall k | 0 <= k < |Tokens(s)|
        ensures IsToken(Tokens(s)[k])
      {
        if k > 0 {
          assert Tokens(s)[k] == Tokens(rest)[k - 1];
        }
      }
    }
  }

  /** There are no tokens exactly when the string is all separators. */
  lemma TokensEmpty(s: string)
    ensures Tokens(s) == [] <==> forall i | 0 <= i < |s| :: IsSplitSpace(s[i])
  {
    var t := SkipSpace(s);
    SkipSpaceSpec(s);
    if t != [] {
      assert !IsSplitSpace(s[|s| - |t|]);
    }
  }

  lemma {:induction false} SkipSpacePadded(a: string, t: string)
    requires forall i | 0 <= i < |a| :: IsSplitSpace(a[i])
    requires t == [] || !IsSplitSpace(t[0])
    ensures SkipSpace(a + t) == t
  {
    if a != [] {
      assert (a + t)[1..] == a[1..] + t;
      SkipSpacePadded(a[1..], t);
    }
  }

  lemma {:induction false} WordOf(w: string, rest: string)
    requires forall i | 0 <= i < |w| :: !IsSplitSpace(w[i])
    requires rest == [] || IsSplitSpace(rest[0])
    ensures Word(w + rest) == w
  {
    if w != [] {
      assert (w + rest)[1..] == w[1..] + rest;
      WordOf(w[1..], rest);
    }
  }

  /** One token splits into itself. */
  lemma TokensOfWord(k: string)
    requires IsToken(k)
    ensures Tokens(k) == [k]
  {
    SkipSpacePadded([], k);
    WordOf(k, []);
    assert k + [] == k;
    assert k[|k|..] == [];
  }

  /** A token followed by a separator (or by nothing) is the first token. */
  lemma TokensCons(w: string, rest: string)
    requires IsToken(w)
    requires rest == [] || IsSplitSpace(rest[0])
    ensures Tokens(w + rest) == [w] + Tokens(rest)
  {
    var s := w + rest;
    assert s[0] == w[0];
    assert SkipSpace(s) == s;
    WordOf(w, rest);
    assert s[|w|..] == rest;
  }

  /** Two tokens joined by one space split back into the two tokens. */
  lemma TokensOfPair(k: string, v: string)
    requires IsToken(k) && IsToken(v)
    ensures Tokens(k + " " + v) == [k, v]
  {
    var rest := " " + v;
    assert Tokens(rest) == [v] by {
      TokensAfterSpace(" ", v);
      TokensOfWord(v);
    }
    assert Tokens(k + rest) == [k] + Tokens(rest) by {
      assert IsSplitSpace(rest[0]);
      TokensCons(k, rest);
    }
    assert k + " " + v == k + rest;
  }

  /** Leading separators do not change the tokens. */
  lemma TokensAfterSpace(a: string, t: string)
    requires forall i | 0 <= i < |a| :: IsSplitSpace(a[i])
    requires t == [] || !IsSplitSpace(t[0])
    ensures Tokens(a + t) == Tokens(t)
  {
    SkipSpacePadded(a, t);
    SkipSpacePadded([], t);
    assert [] + t == t;
  }

  // ---------------------------------------------------------------------------
  // split("\n") and join("\n")

  /** Every piece of `s` between line feeds, the empty ones included. */
  function Split(s: string): (r: seq<string>)
    ensures |r| >= 1
    ensures forall k | 0 <= k < |r| :: '\n' !in r[k]
  {
    if s == [] then [""]
    else
      var rest := Split(s[1..]);
      if s[0] == '\n' then [""] + rest else [[s[0]] + rest[0]] + rest[1..]
  }

  function DropTrailingEmpty(ls: seq<string>): (r: seq<string>)
    ensures |r| <= |ls| && r == ls[..|r|]
    ensures r == [] || r[|r| - 1] != []
    ensures forall k | |r| <= k < |ls| :: ls[k] == []
  {
    if ls != [] && ls[|ls| - 1] == [] then DropTrailingEmpty(ls[..|ls| - 1]) else ls
  }

  /** Ruby's `text.split("\n")`: the lines of `text`, with the empty strings at
      the end removed (so the empty text has no lines at all). */
  function Lines(text: string): (r: seq<string>)
    ensures forall k | 0 <= k < |r| :: '\n' !in r[k]
    ensures r == [] || r[|r| - 1] != []
  {
    DropTrailingEmpty(Split(text))
  }

  /** Ruby's `lines.join("\n")`. */
  function Join(ls: seq<string>): string
  {
    if ls == [] then "" else if |ls| == 1 then ls[0] else ls[0] + "\n" + Join(ls[1..])
  }

  lemma {:induction false} SplitPrefix(a: string, t: string)
    requires '\n' !in a
    ensures Split(a + t) == [a + Split(t)[0]] + Split(t)[1..]
  {
    if a == [] {
      assert a + t == t;
      assert [] + Split(t)[0] == Split(t)[0];
      assert Split(t) == [Split(t)[0]] + Split(t)[1..];
    } else {
      assert (a + t)[0] == a[0] && (a + t)[1..] == a[1..] + t;
      SplitPrefix(a[1..], t);
      var rest := Split(a[1..] + t);
      assert Split(a + t) == [[a[0]] + rest[0]] + rest[1..];
      assert [a[0]] + (a[1..] + Split(t)[0]) == a + Split(t)[0];
    }
  }

  /** `split("\n")` undoes `join("\n")` on lines without line feeds. */
  lemma {:induction false} SplitJoin(ls: seq<string>)
    requires ls != []
    requires forall k | 0 <= k < |ls| :: '\n' !in ls[k]
    ensures Split(Join(ls)) == ls
  {
    if |ls| == 1 {
      SplitPrefix(ls[0], []);
      assert ls[0] + [] == ls[0];
    } else {
      var rest := Join(ls[1..]);
      assert ls[0] + "\n" + rest == ls[0] + ("\n" + rest);
      SplitPrefix(ls[0], "\n" + rest);
      assert ("\n" + rest)[0] == '\n' && ("\n" + rest)[1..] == rest;
      assert Split("\n" + rest) == [""] + Split(rest);
      SplitJoin(ls[1..]);
      assert Join(ls) == ls[0] + "\n" + rest;
      assert ls[0] + Split("\n" + rest)[0] == ls[0];
      assert ls == [ls[0]] + ls[1..];
    }
  }

  /** Reading back lines written with `join("\n")`, when the last written line
      is the empty one: Ruby drops it, and only it. */
  lemma LinesOfJoin(ls: seq<string>)
    requires ls != [] && ls[|ls| - 1] != []
    requires forall k | 0 <= k < |ls| :: '\n' !in ls[k]
    ensures Lines(Join(ls + [""])) == ls
  {
    var all := ls + [""];
    SplitJoin(all);
    assert all[..|all| - 1] == ls;
  }

  // ---------------------------------------------------------------------------
  // downcase

  function LowerChar(c: char): char
  {
    if 'A' <= c <= 'Z' then (c as int + 32) as char else c
  }

  /** `downcase` on the ASCII letters. */
  function Lower(s: string): string
  {
    seq(|s|, i requires 0 <= i < |s| => LowerChar(s[i]))
  }
}
