/** String helpers with the meaning of the JavaScript and Node.js library
    calls the repository uses: `startsWith`, `includes`, `toLowerCase`
    (ASCII letters), `path.basename` and `path.extname` (POSIX paths). */
module Text {
  import opened Common

  predicate StartsWith(s: string, p: string) {
    |p| <= |s| && s[..|p|] == p
  }

  predicate EndsWith(s: string, p: string) {
    |p| <= |s| && s[|s| - |p|..] == p
  }

  /** w occurs in s starting at index i. */
  predicate OccursAt(s: string, w: string, i: int) {
    0 <= i <= |s| - |w| && s[i..i + |w|] == w
  }

  /** `s.includes(w)`: w occurs somewhere in s. */
  predicate Contains(s: string, w: string) {
    exists i :: 0 <= i <= |s| - |w| && OccursAt(s, w, i)
  }

  /** Some word of `ws` occurs in s. */
  predicate ContainsAny(s: string, ws: seq<string>) {
    exists j :: 0 <= j < |ws| && Contains(s, ws[j])
  }

  predicate IsDigit(c: char) { '0' <= c <= '9' }

  predicate AllDigits(s: string) {
    forall i :: 0 <= i < |s| ==> IsDigit(s[i])
  }

  function LowerChar(c: char): char {
    if 'A' <= c <= 'Z' then (c as int + 32) as char else c
  }

  /** ASCII lower-casing, character by character. */
  function Lower(s: string): string {
    seq(|s|, i requires 0 <= i < |s| => LowerChar(s[i]))
  }

  /** If no character of `p` is the first character of `w`, an occurrence of
      `w` in `p + m` cannot start inside `p`, so it lies wholly in `m`. */
  lemma {:induction false} ContainsAfterPrefix(p: string, m: string, w: string)
    requires |w| > 0
    requires forall i :: 0 <= i < |p| ==> p[i] != w[0]
    ensures Contains(p + m, w) <==> Contains(m, w)
  {
    var s := p + m;
    if Contains(s, w) {
      var i :| 0 <= i <= |s| - |w| && OccursAt(s, w, i);
      assert s[i..i + |w|] == w && s[i] == s[i..i + |w|][0];
      assert s[i] == w[0];
      assert m[i - |p|..i - |p| + |w|] == s[i..i + |w|];
      assert OccursAt(m, w, i - |p|);
    }
    if Contains(m, w) {
      var i :| 0 <= i <= |m| - |w| && OccursAt(m, w, i);
      assert m[i..i + |w|] == w;
      assert s[|p| + i..|p| + i + |w|] == m[i..i + |w|];
      assert OccursAt(s, w, |p| + i);
    }
  }

  // ---- path.basename / path.extname (POSIX) ----

  function StripTrailingSlashes(p: string): string {
    if |p| > 0 && p[|p| - 1] == '/' then StripTrailingSlashes(p[..|p| - 1]) else p
  }

  /** The part of p after its last '/'. */
  function LastSegment(p: string): string {
    if |p| == 0 || p[|p| - 1] == '/' then []
    else LastSegment(p[..|p| - 1]) + [p[|p| - 1]]
  }

  /** `path.basename(p)`: the last segment, trailing slashes ignored. */
  function Basename(p: string): string {
    LastSegment(StripTrailingSlashes(p))
  }

  /** Index of the last '.' in s, if any. */
  function LastDot(s: string): (r: Option<nat>)
    ensures r.None? ==> forall i :: 0 <= i < |s| ==> s[i] != '.'
    ensures r.Some? ==> r.value < |s| && s[r.value] == '.'
                        && forall i :: r.value < i < |s| ==> s[i] != '.'
  {
    if |s| == 0 then None
    else if s[|s| - 1] == '.' then Some(|s| - 1)
    else LastDot(s[..|s| - 1])
  }

  /** `path.extname` of a name without '/': from the last '.' to the end,
      unless there is no dot, the dot is the name's first character, or the
      name is "..". */
  function ExtOfName(b: string): string {
    match LastDot(b)
    case None => []
    case Some(d) => if d == 0 || b == ".." then [] else b[d..]
  }

  /** `path.extname(p)`. */
  function Extname(p: string): string {
    ExtOfName(Basename(p))
  }

  /** The part of s after the first occurrence of the character `sep`
      (all of s when sep does not occur). */
  function AfterFirst(s: string, sep: char): (r: string)
    ensures |r| <= |s| && r == s[|s| - |r|..]
  {
    if |s| == 0 then []
    else if s[0] == sep then s[1..]
    else AfterFirst(s[1..], sep)
  }

  /** The part of s before the first occurrence of `sep` (all of s when
      sep does not occur). */
  function BeforeFirst(s: string, sep: char): (r: string)
    ensures |r| <= |s| && r == s[..|r|]
  {
    if |s| == 0 || s[0] == sep then [] else [s[0]] + BeforeFirst(s[1..], sep)
  }

  /** `ws.join(sep)` for a one-character separator. */
  function Join(ws: seq<string>, sep: char): string
    decreases |ws|
  {
    if |ws| == 0 then []
    else if |ws| == 1 then ws[0]
    else ws[0] + [sep] + Join(ws[1..], sep)
  }

  /** `s.split(sep)` for a one-character separator. */
  function Split(s: string, sep: char): (r: seq<string>)
    ensures |r| > 0
    decreases |s|
  {
    if |s| == 0 then [[]]
    else
      var rest := Split(s[1..], sep);
      if s[0] == sep then [[]] + rest else [[s[0]] + rest[0]] + rest[1..]
  }

  predicate Free(s: string, c: char) {
    forall i :: 0 <= i < |s| ==> s[i] != c
  }

  // ---- lemmas ----

  /** A string that lacks one of w's characters does not contain w. */
  lemma {:induction false} MissingCharNotContained(s: string, w: string, k: nat)
    requires k < |w| && Free(s, w[k])
    ensures !Contains(s, w)
  {
    forall i | 0 <= i <= |s| - |w|
      ensures !OccursAt(s, w, i)
    {
      assert s[i + k] != w[k];
    }
  }

  /** Stripping trailing slashes leaves a prefix that does not end in '/'. */
  lemma {:induction false} StripTrailingSlashesShape(p: string)
    ensures var r := StripTrailingSlashes(p);
      |r| <= |p| && r == p[..|r|] && (r == [] || r[|r| - 1] != '/')
    decreases |p|
  {
    if |p| > 0 && p[|p| - 1] == '/' {
      StripTrailingSlashesShape(p[..|p| - 1]);
    }
  }

  /** The last segment is a suffix without '/', preceded by a '/' when it is
      not the whole string. */
  lemma {:induction false} LastSegmentShape(p: string)
    ensures var r := LastSegment(p);
      |r| <= |p| && r == p[|p| - |r|..]
      && (forall i :: 0 <= i < |r| ==> r[i] != '/')
      && (|r| < |p| ==> p[|p| - |r| - 1] == '/')
    decreases |p|
  {
    if |p| > 0 && p[|p| - 1] != '/' {
      LastSegmentShape(p[..|p| - 1]);
    }
  }

  /** `path.basename(p)` holds no '/' and is a part of p. */
  lemma {:induction false} BasenameShape(p: string)
    ensures forall i :: 0 <= i < |Basename(p)| ==> Basename(p)[i] != '/'
    ensures Contains(p, Basename(p))
  {
    var s := StripTrailingSlashes(p);
    StripTrailingSlashesShape(p);
    LastSegmentShape(s);
    var b := Basename(p);
    assert p[|s| - |b|..|s|] == b;
    assert OccursAt(p, b, |s| - |b|);
  }

  /** The extension of a name is empty, or a '.' followed by no other '.'
      and no '/', and it is a suffix of the name. */
  lemma {:induction false} ExtOfNameShape(b: string)
    requires forall i :: 0 <= i < |b| ==> b[i] != '/'
    ensures EndsWith(b, ExtOfName(b))
    ensures var e := ExtOfName(b);
      e == [] || (e[0] == '.' && forall i :: 0 < i < |e| ==> e[i] != '.' && e[i] != '/')
  {
    var r := LastDot(b);
    if r.Some? && r.value != 0 && b != ".." {
      var e := b[r.value..];
      assert ExtOfName(b) == e;
      assert forall i :: 0 < i < |e| ==> e[i] == b[r.value + i];
    }
  }

  lemma {:induction false} ExtnameShape(p: string)
    ensures EndsWith(Basename(p), Extname(p))
    ensures var e := Extname(p);
      e == [] || (e[0] == '.' && forall i :: 0 < i < |e| ==> e[i] != '.' && e[i] != '/')
  {
    BasenameShape(p);
    ExtOfNameShape(Basename(p));
  }

  /** Joining a directory and a file name with '/' and taking the basename
      gives back the file name. */
  lemma {:induction false} BasenameOfJoin(dir: string, name: string)
    requires name != [] && forall i :: 0 <= i < |name| ==> name[i] != '/'
    ensures Basename(dir + "/" + name) == name
    decreases |name|
  {
    var p := dir + "/" + name;
    assert StripTrailingSlashes(p) == p;
    LastSegmentOfJoin(dir, name);
  }

  lemma {:induction false} LastSegmentOfJoin(dir: string, name: string)
    requires forall i :: 0 <= i < |name| ==> name[i] != '/'
    ensures LastSegment(dir + "/" + name) == name
    decreases |name|
  {
    var p := dir + "/" + name;
    if |name| == 0 {
      assert p[|p| - 1] == '/';
    } else {
      var q := name[..|name| - 1];
      assert p[..|p| - 1] == dir + "/" + q;
      LastSegmentOfJoin(dir, q);
      assert name == q + [name[|name| - 1]];
    }
  }

  /** A separator-free prefix followed by the separator is cut off exactly. */
  lemma {:induction false} AfterFirstOfJoin(head: string, sep: char, tail: string)
    requires forall i :: 0 <= i < |head| ==> head[i] != sep
    ensures AfterFirst(head + [sep] + tail, sep) == tail
    ensures BeforeFirst(head + [sep] + tail, sep) == head
    decreases |head|
  {
    var s := head + [sep] + tail;
    if |head| == 0 {
      assert s[0] == sep && s[1..] == tail;
    } else {
      assert s[0] == head[0];
      assert s[1..] == head[1..] + [sep] + tail;
      AfterFirstOfJoin(head[1..], sep, tail);
      assert head == [head[0]] + head[1..];
    }
  }

  /** A name without '/' is its own last segment and its own basename. */
  lemma {:induction false} LastSegmentOfPlain(s: string)
    requires Free(s, '/')
    ensures LastSegment(s) == s
    decreases |s|
  {
    if |s| > 0 {
      LastSegmentOfPlain(s[..|s| - 1]);
    }
  }

  lemma {:induction false} BasenameOfPlain(s: string)
    requires Free(s, '/')
    ensures Basename(s) == s
  {
    assert StripTrailingSlashes(s) == s;
    LastSegmentOfPlain(s);
  }

  /** A dot at the start of a dot-free tail is the last dot. */
  lemma {:induction false} LastDotOfJoin(p: string, e: string)
    requires |e| > 0 && e[0] == '.' && Free(e[1..], '.')
    ensures LastDot(p + e) == Some(|p|)
    decreases |e|
  {
    var s := p + e;
    if |e| > 1 {
      var e' := e[..|e| - 1];
      assert s[..|s| - 1] == p + e';
      assert e'[1..] == e[1..|e| - 1];
      LastDotOfJoin(p, e');
    }
  }

  /** Splitting undoes joining when no word holds the separator. */
  lemma {:induction false} SplitJoin(ws: seq<string>, sep: char)
    requires |ws| > 0 && forall i :: 0 <= i < |ws| ==> Free(ws[i], sep)
    ensures Split(Join(ws, sep), sep) == ws
    decreases |ws|
  {
    assert Free(ws[0], sep);
    if |ws| == 1 {
      SplitWord(ws[0], [], sep);
      assert ws[0] + [] == ws[0];
      assert Split([], sep) == [[]];
    } else {
      assert forall i :: 0 <= i < |ws[1..]| ==> Free(ws[1..][i], sep) by {
        forall i | 0 <= i < |ws[1..]| ensures Free(ws[1..][i], sep) {
          assert ws[1..][i] == ws[i + 1];
        }
      }
      SplitJoin(ws[1..], sep);
      var j := Join(ws[1..], sep);
      var tail := [sep] + j;
      assert Join(ws, sep) == ws[0] + tail;
      SplitWord(ws[0], tail, sep);
      SplitSep(j, sep);
      var st := Split(tail, sep);
      assert st == [[]] + ws[1..];
      assert st[0] == [] && st[1..] == ws[1..];
      assert ws[0] + st[0] == ws[0];
      assert ws == [ws[0]] + ws[1..];
    }
  }

  /** A word without the separator extends the first piece. */
  lemma {:induction false} SplitWord(w: string, t: string, sep: char)
    requires Free(w, sep)
    ensures var r := Split(w + t, sep);
      r == [w + Split(t, sep)[0]] + Split(t, sep)[1..]
    decreases |w|
  {
    if |w| > 0 {
      assert (w + t)[0] == w[0] && w[0] != sep;
      assert (w + t)[1..] == w[1..] + t;
      SplitWord(w[1..], t, sep);
      assert w + Split(t, sep)[0] == [w[0]] + (w[1..] + Split(t, sep)[0]);
    } else {
      var s := Split(t, sep);
      assert w + t == t && w + s[0] == s[0];
      assert s == [s[0]] + s[1..];
    }
  }

  lemma SplitSep(t: string, sep: char)
    ensures Split([sep] + t, sep) == [[]] + Split(t, sep)
  {
    assert ([sep] + t)[1..] == t;
  }

  lemma {:induction false} LastDotOfPlain(s: string)
    requires Free(s, '.')
    ensures LastDot(s) == None
  {
  }

  /** A name made of a non-empty stem without '.' or '/' and an extension
      as `path.extname` returns one has that extension. */
  lemma {:induction false} ExtOfNameAfterPlain(p: string, e: string)
    requires |p| > 0 && p[0] != '.' && Free(p, '.') && Free(p, '/')
    requires e == [] || (e[0] == '.' && forall i :: 0 < i < |e| ==> e[i] != '.' && e[i] != '/')
    ensures Extname(p + e) == e
  {
    var s := p + e;
    assert Free(s, '/') by {
      forall i | 0 <= i < |s| ensures s[i] != '/' {
        if i < |p| { assert s[i] == p[i]; } else { assert s[i] == e[i - |p|]; }
      }
    }
    BasenameOfPlain(s);
    if e == [] {
      assert s == p;
      LastDotOfPlain(p);
    } else {
      assert Free(e[1..], '.') by {
        forall i | 0 <= i < |e[1..]| ensures e[1..][i] != '.' {
          assert e[1..][i] == e[i + 1];
        }
      }
      LastDotOfJoin(p, e);
      assert s[0] == p[0];
      assert s[|p|..] == e;
    }
  }
}
