/** Splitting of raw text as the iterator sees it: a file into the lines that
    `readline` returns, a line into whitespace-separated tokens, and a source
    token into its `|`-separated factors. */
module Text {

  /** Whitespace as Python 2's byte-string `split()` recognises it. */
  predicate IsSpace(c: char) {
    c == ' ' || c == '\t' || c == '\n' || c == '\r' || c == '\U{000B}' || c == '\U{000C}'
  }

  predicate NoSpace(s: string) {
    forall i :: 0 <= i < |s| ==> !IsSpace(s[i])
  }

  /** The longest prefix of `s` that does not contain `d`. */
  function Field(s: string, d: char): (p: string)
    ensures |p| <= |s| && p == s[..|p|]
    ensures d !in p
    ensures |p| < |s| ==> s[|p|] == d
  {
    if s == [] || s[0] == d then [] else [s[0]] + Field(s[1..], d)
  }

  // ---------------------------------------------------------------------------
  // Lines, as successive calls of `readline` return them

  /** The lines of a file: every line but the last ends with its newline, the
      last one may lack it, and an empty file has no lines. */
  function SplitLines(t: string): (r: seq<string>)
    ensures forall j :: 0 <= j < |r| ==> r[j] != []
    ensures forall j :: 0 <= j < |r| ==> forall c :: 0 <= c < |r[j]| - 1 ==> r[j][c] != '\n'
    ensures forall j :: 0 <= j < |r| - 1 ==> r[j][|r[j]| - 1] == '\n'
    decreases |t|
  {
    if t == [] then []
    else
      var p := Field(t, '\n');
      if |p| == |t| then [t] else [t[..|p| + 1]] + SplitLines(t[|p| + 1..])
  }

  function Concat(ls: seq<string>): string {
    if ls == [] then [] else ls[0] + Concat(ls[1..])
  }

  /** Reading every line of a file gives back the whole file. */
  lemma {:induction false} ConcatSplitLines(t: string)
    ensures Concat(SplitLines(t)) == t
    decreases |t|
  {
    if t != [] {
      var p := Field(t, '\n');
      if |p| < |t| {
        ConcatSplitLines(t[|p| + 1..]);
        assert t == t[..|p| + 1] + t[|p| + 1..];
      }
    }
  }

  // ---------------------------------------------------------------------------
  // Tokens: `line.strip().split()`

  /** The longest prefix of `s` free of whitespace. */
  function Word(s: string): (w: string)
    ensures |w| <= |s| && w == s[..|w|]
    ensures NoSpace(w)
    ensures |w| < |s| ==> IsSpace(s[|w|])
  {
    if s == [] || IsSpace(s[0]) then [] else [s[0]] + Word(s[1..])
  }

  /** The whitespace-separated tokens of a line; surrounding whitespace and runs
      of whitespace produce no empty tokens. */
  function Tokens(s: string): (r: seq<string>)
    ensures forall j :: 0 <= j < |r| ==> r[j] != [] && NoSpace(r[j])
    decreases |s|
  {
    if s == [] then []
    else if IsSpace(s[0]) then Tokens(s[1..])
    else
      var w := Word(s);
      [w] + Tokens(s[|w|..])
  }

  /** A line made only of whitespace, the blank line "\n" among them, has no
      tokens; it is an empty example, not the end of the stream. */
  lemma {:induction false} BlankLineHasNoTokens(s: string)
    requires forall i :: 0 <= i < |s| ==> IsSpace(s[i])
    ensures Tokens(s) == []
    decreases |s|
  {
    if s != [] {
      BlankLineHasNoTokens(s[1..]);
    }
  }

  /** Tokens joined by single blanks. */
  function Unwords(ws: seq<string>): string {
    if ws == [] then []
    else if |ws| == 1 then ws[0]
    else ws[0] + " " + Unwords(ws[1..])
  }

  lemma WordOfPrefix(w: string, rest: string)
    requires NoSpace(w)
    requires rest == [] || IsSpace(rest[0])
    ensures Word(w + rest) == w
    decreases |w|
  {
    if w != [] {
      assert (w + rest)[1..] == w[1..] + rest;
      WordOfPrefix(w[1..], rest);
    }
  }

  /** Splitting undoes joining with blanks, for non-empty blank-free tokens. */
  lemma {:induction false} TokensOfUnwords(ws: seq<string>)
    requires forall j :: 0 <= j < |ws| ==> ws[j] != [] && NoSpace(ws[j])
    ensures Tokens(Unwords(ws)) == ws
  {
    if ws == [] {
    } else if |ws| == 1 {
      WordOfPrefix(ws[0], []);
      assert ws[0] + [] == ws[0];
      assert Unwords(ws)[|ws[0]|..] == [];
    } else {
      var s := Unwords(ws);
      var rest := " " + Unwords(ws[1..]);
      assert s == ws[0] + rest;
      WordOfPrefix(ws[0], rest);
      assert s[|ws[0]|..] == rest;
      assert rest[1..] == Unwords(ws[1..]);
      TokensOfUnwords(ws[1..]);
      assert ws == [ws[0]] + ws[1..];
    }
  }

  // ---------------------------------------------------------------------------
  // Factors: `w.split('|')`

  /** Python's `s.split(d)`: the pieces between occurrences of `d`, so an
      empty string or a leading, trailing or doubled `d` yields empty pieces. */
  function Split(s: string, d: char): (r: seq<string>)
    ensures |r| >= 1
    ensures forall j :: 0 <= j < |r| ==> d !in r[j]
    decreases |s|
  {
    var p := Field(s, d);
    if |p| == |s| then [s] else [p] + Split(s[|p| + 1..], d)
  }

  function Join(ps: seq<string>, d: char): string
    requires |ps| >= 1
  {
    if |ps| == 1 then ps[0] else ps[0] + [d] + Join(ps[1..], d)
  }

  /** Number of occurrences of `d` in `s`. */
  function Occurrences(s: string, d: char): nat {
    if s == [] then 0 else (if s[0] == d then 1 else 0) + Occurrences(s[1..], d)
  }

  /** Joining the pieces with the delimiter gives back the string. */
  lemma {:induction false} JoinSplit(s: string, d: char)
    ensures Join(Split(s, d), d) == s
    decreases |s|
  {
    var p := Field(s, d);
    if |p| < |s| {
      JoinSplit(s[|p| + 1..], d);
      assert s == p + [d] + s[|p| + 1..];
    }
  }

  lemma FieldOfPrefix(p: string, rest: string, d: char)
    requires d !in p
    requires rest == [] || rest[0] == d
    ensures Field(p + rest, d) == p
    decreases |p|
  {
    if p != [] {
      assert p[0] in p;
      assert (p + rest)[0] == p[0] != d;
      assert (p + rest)[1..] == p[1..] + rest;
      assert d !in p[1..] by {
        forall c | c in p[1..] ensures c != d { assert c in p; }
      }
      FieldOfPrefix(p[1..], rest, d);
    }
  }

  /** Splitting undoes joining, for pieces free of the delimiter. */
  lemma {:induction false} SplitJoin(ps: seq<string>, d: char)
    requires |ps| >= 1
    requires forall j :: 0 <= j < |ps| ==> d !in ps[j]
    ensures Split(Join(ps, d), d) == ps
  {
    if |ps| == 1 {
      FieldOfPrefix(ps[0], [], d);
      assert ps[0] + [] == ps[0];
    } else {
      SplitFirst(ps, d);
      assert forall j :: 0 <= j < |ps| - 1 ==> ps[1..][j] == ps[j + 1];
      SplitJoin(ps[1..], d);
      assert ps == [ps[0]] + ps[1..];
    }
  }

  /** The first piece of a join splits off on its own. */
  lemma SplitFirst(ps: seq<string>, d: char)
    requires |ps| >= 2 && d !in ps[0]
    ensures Split(Join(ps, d), d) == [ps[0]] + Split(Join(ps[1..], d), d)
  {
    var rest := [d] + Join(ps[1..], d);
    var s := Join(ps, d);
    assert s == ps[0] + rest;
    FieldOfPrefix(ps[0], rest, d);
    assert s[|ps[0]| + 1..] == Join(ps[1..], d);
  }

  lemma OccurrencesAppend(a: string, b: string, d: char)
    ensures Occurrences(a + b, d) == Occurrences(a, d) + Occurrences(b, d)
  {
    if a == [] {
      assert a + b == b;
    } else {
      assert (a + b)[0] == a[0];
      assert (a + b)[1..] == a[1..] + b;
      OccurrencesAppend(a[1..], b, d);
    }
  }

  lemma NoOccurrences(s: string, d: char)
    requires d !in s
    ensures Occurrences(s, d) == 0
  {
    if s != [] {
      NoOccurrences(s[1..], d);
    }
  }

  /** A string with `n` delimiters has `n + 1` pieces. */
  lemma {:induction false} SplitCount(s: string, d: char)
    ensures |Split(s, d)| == Occurrences(s, d) + 1
    decreases |s|
  {
    var p := Field(s, d);
    if |p| == |s| {
      assert p == s;
      NoOccurrences(s, d);
    } else {
      SplitCount(s[|p| + 1..], d);
      assert s == p + ([d] + s[|p| + 1..]);
      OccurrencesAppend(p, [d] + s[|p| + 1..], d);
      assert ([d] + s[|p| + 1..])[1..] == s[|p| + 1..];
      NoOccurrences(p, d);
    }
  }
}
