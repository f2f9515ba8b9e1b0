/** The meaning of the JavaScript regular expressions the repository tests
    strings against.  A pattern is a small syntax tree; `Matches(r, s)` says
    that the whole of s is in the language of r.  `RegExp.prototype.test`
    and `String.prototype.match` search with backtracking, so for these
    patterns (no back-references, no look-around) they succeed exactly when
    some substring is in the language: `^...$` asks for all of s,
    `^...` for a prefix of s, and an unanchored pattern for any substring. */
module Regex {
  import opened Text

  /** Character classes: a single character, `\d`, `\w` and unions. */
  datatype CharSet = Single(c: char) | Digits | WordChars | Union(left: CharSet, right: CharSet)

  predicate InSet(c: char, cs: CharSet) {
    match cs
    case Single(d) => c == d
    case Digits => IsDigit(c)
    case WordChars => IsDigit(c) || ('a' <= c <= 'z') || ('A' <= c <= 'Z') || c == '_'
    case Union(a, b) => InSet(c, a) || InSet(c, b)
  }

  datatype Re =
    | Epsilon
    | Lit(c: char)
    | Class(cs: CharSet)
    | Cat(left: Re, right: Re)
    | Alt(left: Re, right: Re)
    | Plus(body: Re)

  ghost predicate Matches(r: Re, s: string)
    decreases |s|, r
  {
    match r
    case Epsilon => s == []
    case Lit(c) => s == [c]
    case Class(cs) => |s| == 1 && InSet(s[0], cs)
    case Cat(a, b) => exists k :: 0 <= k <= |s| && Matches(a, s[..k]) && Matches(b, s[k..])
    case Alt(a, b) => Matches(a, s) || Matches(b, s)
    case Plus(a) =>
      exists k :: 0 < k <= |s| && Matches(a, s[..k]) && (k == |s| || Matches(Plus(a), s[k..]))
  }

  /** `^r` without `$`: some prefix of s is in the language. */
  ghost predicate MatchesPrefix(r: Re, s: string) {
    exists j :: 0 <= j <= |s| && Matches(r, s[..j])
  }

  /** An unanchored pattern: some substring of s is in the language. */
  ghost predicate MatchesSomewhere(r: Re, s: string) {
    exists i, j :: 0 <= i <= j <= |s| && Matches(r, s[i..j])
  }

  /** A literal word. */
  function Word(w: string): Re
    decreases |w|
  {
    if |w| == 0 then Epsilon else Cat(Lit(w[0]), Word(w[1..]))
  }

  /** `w1|w2|...|wn`. */
  function AnyWord(ws: seq<string>): Re
    requires |ws| > 0
  {
    if |ws| == 1 then Word(ws[0]) else Alt(Word(ws[0]), AnyWord(ws[1..]))
  }

  /** `(r)?` */
  function Optional(r: Re): Re {
    Alt(Epsilon, r)
  }

  // ---- lemmas ----

  lemma {:induction false} WordMatches(w: string, s: string)
    ensures Matches(Word(w), s) <==> s == w
    decreases |w|
  {
    if |w| > 0 {
      assert Word(w) == Cat(Lit(w[0]), Word(w[1..]));
      if Matches(Word(w), s) {
        var k :| 0 <= k <= |s| && Matches(Lit(w[0]), s[..k]) && Matches(Word(w[1..]), s[k..]);
        WordMatches(w[1..], s[k..]);
        assert s == s[..k] + s[k..];
      }
      if s == w {
        WordMatches(w[1..], s[1..]);
        assert s[..1] == [w[0]];
        assert Matches(Lit(w[0]), s[..1]);
      }
    }
  }

  /** A pattern that starts with a literal word matches s exactly when s
      starts with the word and the rest matches the remaining pattern. */
  lemma {:induction false} CatWordMatches(w: string, r: Re, s: string)
    ensures Matches(Cat(Word(w), r), s) <==> StartsWith(s, w) && Matches(r, s[|w|..])
  {
    if Matches(Cat(Word(w), r), s) {
      var k :| 0 <= k <= |s| && Matches(Word(w), s[..k]) && Matches(r, s[k..]);
      WordMatches(w, s[..k]);
    }
    if StartsWith(s, w) && Matches(r, s[|w|..]) {
      WordMatches(w, s[..|w|]);
    }
  }

  /** `[set]+` matches exactly the non-empty strings drawn from the set. */
  lemma {:induction false} ClassPlusMatches(cs: CharSet, s: string)
    ensures Matches(Plus(Class(cs)), s) <==> |s| > 0 && forall i :: 0 <= i < |s| ==> InSet(s[i], cs)
    decreases |s|
  {
    var r := Plus(Class(cs));
    if Matches(r, s) {
      var k :| 0 < k <= |s| && Matches(Class(cs), s[..k]) && (k == |s| || Matches(r, s[k..]));
      assert k == 1 && InSet(s[0], cs);
      if k < |s| {
        ClassPlusMatches(cs, s[1..]);
        assert forall i :: 1 <= i < |s| ==> s[i] == s[1..][i - 1];
      }
    }
    if |s| > 0 && forall i :: 0 <= i < |s| ==> InSet(s[i], cs) {
      assert Matches(Class(cs), s[..1]);
      if |s| > 1 {
        ClassPlusMatches(cs, s[1..]);
      }
    }
  }

  /** An alternation of words matches exactly those words. */
  lemma {:induction false} AnyWordMatches(ws: seq<string>, s: string)
    requires |ws| > 0
    ensures Matches(AnyWord(ws), s) <==> s in ws
    decreases |ws|
  {
    WordMatches(ws[0], s);
    if |ws| > 1 {
      AnyWordMatches(ws[1..], s);
      assert ws == [ws[0]] + ws[1..];
    }
  }

  /** Searching for an alternation of words is testing that one of the words
      is a substring. */
  lemma {:induction false} SearchAnyWord(ws: seq<string>, s: string)
    requires |ws| > 0
    ensures MatchesSomewhere(AnyWord(ws), s) <==> ContainsAny(s, ws)
  {
    var r := AnyWord(ws);
    if MatchesSomewhere(r, s) {
      var i, j :| 0 <= i <= j <= |s| && Matches(r, s[i..j]);
      AnyWordMatches(ws, s[i..j]);
      var n :| 0 <= n < |ws| && ws[n] == s[i..j];
      assert OccursAt(s, ws[n], i);
    }
    if ContainsAny(s, ws) {
      var n :| 0 <= n < |ws| && Contains(s, ws[n]);
      var i :| 0 <= i <= |s| - |ws[n]| && OccursAt(s, ws[n], i);
      AnyWordMatches(ws, s[i..i + |ws[n]|]);
      assert Matches(r, s[i..i + |ws[n]|]);
    }
  }
}
