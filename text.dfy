/**
 * The JavaScript string operations the room logic relies on:
 * `String.prototype.trim`, `split` on a one-character separator and `Array.prototype.join`.
 * Strings are `seq<char>`, a sequence of Unicode scalar values: a character outside the Basic
 * Multilingual Plane is one `char` here but two UTF-16 code units in JavaScript.
 */
module Text {

  /** ECMAScript WhiteSpace and LineTerminator code points: the characters `trim` removes. */
  predicate IsSpace(c: char) {
    || c == ' ' || c == '\t' || c == '\n' || c == '\r' || c == '\U{0B}' || c == '\U{0C}'
    || c == '\U{A0}' || c == '\U{1680}' || ('\U{2000}' <= c <= '\U{200A}')
    || c == '\U{2028}' || c == '\U{2029}' || c == '\U{202F}' || c == '\U{205F}'
    || c == '\U{3000}' || c == '\U{FEFF}'
  }

  /** Every character of `s` is white space (the empty string included). */
  predicate AllSpace(s: string) {
    forall i :: 0 <= i < |s| ==> IsSpace(s[i])
  }

  /** The number of white-space characters at the start of `s`. */
  function LeadingSpaces(s: string): (k: nat)
    ensures k <= |s| && AllSpace(s[..k])
    ensures k < |s| ==> !IsSpace(s[k])
  {
    if |s| > 0 && IsSpace(s[0]) then
      var k := 1 + LeadingSpaces(s[1..]);
      assert s[..k] == [s[0]] + s[1..][..k - 1];
      SpaceBefore(s[0], s[1..][..k - 1]);
      k
    else 0
  }

  /** White space followed by white space is white space. */
  lemma SpaceBefore(c: char, s: string)
    requires IsSpace(c) && AllSpace(s)
    ensures AllSpace([c] + s)
  {
    forall i | 0 <= i < |[c] + s|
      ensures IsSpace(([c] + s)[i])
    {
      if i > 0 {
        assert ([c] + s)[i] == s[i - 1];
      }
    }
  }

  /** Drops leading white space. */
  function TrimStart(s: string): (r: string)
    ensures |r| <= |s| && r == s[|s| - |r|..]
    ensures AllSpace(s[..|s| - |r|])
    ensures r == [] || !IsSpace(r[0])
  {
    s[LeadingSpaces(s)..]
  }

  /** Drops trailing white space. */
  function TrimEnd(s: string): (r: string)
    ensures |r| <= |s| && r == s[..|r|]
    ensures AllSpace(s[|r|..])
    ensures r == [] || !IsSpace(r[|r| - 1])
  {
    if |s| > 0 && IsSpace(s[|s| - 1]) then TrimEnd(s[..|s| - 1]) else s
  }

  /** `s.trim()`: the text between the leading and the trailing white space. */
  function Trim(s: string): string {
    TrimEnd(TrimStart(s))
  }

  /** A string trims to the empty string exactly when it is all white space. */
  lemma TrimEmptyIffAllSpace(s: string)
    ensures Trim(s) == [] <==> AllSpace(s)
  {
    var t := TrimStart(s);
    if Trim(s) == [] {
      assert AllSpace(t);
      assert t == [];
      assert s[..|s|] == s;
    }
    if AllSpace(s) {
      assert t == [];
    }
  }

  /** Trimming is idempotent: text that was trimmed once is unchanged by a second trim. */
  lemma TrimIdempotent(s: string)
    ensures Trim(Trim(s)) == Trim(s)
  {
    var t := Trim(s);
    if t != [] {
      assert !IsSpace(t[0]) by {
        var u := TrimStart(s);
        assert t == u[..|t|];
        assert t[0] == u[0];
      }
      assert TrimStart(t) == t;
      assert TrimEnd(t) == t;
    }
  }

  /** The position of the first `c` in `s`, or `|s|` when there is none. */
  function IndexOf(s: string, c: char): (i: nat)
    ensures i <= |s|
    ensures forall j :: 0 <= j < i ==> s[j] != c
    ensures i < |s| ==> s[i] == c
  {
    if |s| == 0 || s[0] == c then 0
    else
      1 + IndexOf(s[1..], c)
  }

  /** Only one position is the first occurrence. */
  lemma IndexOfUnique(s: string, c: char, j: nat)
    requires j <= |s|
    requires forall k :: 0 <= k < j ==> s[k] != c
    requires j < |s| ==> s[j] == c
    ensures IndexOf(s, c) == j
  {
  }

  /** `s.split(c)`: the pieces of `s` between occurrences of `c`; never empty. */
  function Split(s: string, c: char): (r: seq<string>)
    ensures |r| >= 1
    decreases |s|
  {
    var i := IndexOf(s, c);
    if i == |s| then [s] else [s[..i]] + Split(s[i + 1..], c)
  }

  /** `parts.join(c)`. */
  function Join(parts: seq<string>, c: char): string
    decreases |parts|
  {
    if |parts| == 0 then ""
    else if |parts| == 1 then parts[0]
    else parts[0] + [c] + Join(parts[1..], c)
  }

  /** A split gives one piece exactly when the separator does not occur. */
  lemma SplitOnePiece(s: string, c: char)
    ensures |Split(s, c)| == 1 <==> c !in s
  {
    var i := IndexOf(s, c);
    if i < |s| {
      assert s[i] in s;
      SplitAtFirst(s, c);
    }
  }

  /** No piece of a split contains the separator. */
  lemma {:induction false} SplitPiecesLackSeparator(s: string, c: char)
    ensures forall k :: 0 <= k < |Split(s, c)| ==> c !in Split(s, c)[k]
    decreases |s|
  {
    var i := IndexOf(s, c);
    if i == |s| {
      SplitWhole(s, c);
    } else {
      SplitAtFirst(s, c);
      SplitPiecesLackSeparator(s[i + 1..], c);
    }
  }

  /** A string with a separator splits into the text before it and the pieces of the rest. */
  lemma SplitAtFirst(s: string, c: char)
    requires IndexOf(s, c) < |s|
    ensures Split(s, c) == [s[..IndexOf(s, c)]] + Split(s[IndexOf(s, c) + 1..], c)
  {
  }

  /** A string without the separator is one piece. */
  lemma SplitWhole(s: string, c: char)
    requires c !in s
    ensures Split(s, c) == [s]
  {
    IndexOfUnique(s, c, |s|);
    assert s[..|s|] == s;
  }

  /** Joining a piece in front of at least one more piece puts a separator between them. */
  lemma JoinFront(x: string, rest: seq<string>, c: char)
    requires |rest| >= 1
    ensures Join([x] + rest, c) == x + [c] + Join(rest, c)
  {
    assert ([x] + rest)[1..] == rest;
  }

  /** A string is the text before position `i`, the character there, and the text after. */
  lemma Reassemble(s: string, i: nat)
    requires i < |s|
    ensures s == s[..i] + [s[i]] + s[i + 1..]
  {
  }

  /** The text after the first `c` of `s`, which has one. */
  function After(s: string, c: char): (t: string)
    requires IndexOf(s, c) < |s|
    ensures |t| < |s|
  {
    s[IndexOf(s, c) + 1..]
  }

  /** Splitting and rejoining `s` gives `s` back once it does so for the text after the first separator. */
  lemma JoinSplitStep(s: string, c: char)
    requires IndexOf(s, c) < |s| ==> Join(Split(After(s, c), c), c) == After(s, c)
    ensures Join(Split(s, c), c) == s
  {
    var i := IndexOf(s, c);
    if i == |s| {
      SplitWhole(s, c);
    } else {
      SplitAtFirst(s, c);
      JoinFront(s[..i], Split(s[i + 1..], c), c);
      Reassemble(s, i);
    }
  }

  /** Splitting on `c` and joining with `c` gives back the original string. */
  lemma {:induction false} JoinSplit(s: string, c: char)
    ensures Join(Split(s, c), c) == s
    decreases |s|
  {
    if IndexOf(s, c) < |s| {
      JoinSplit(After(s, c), c);
    }
    JoinSplitStep(s, c);
  }

  /** The parts of `a + [c] + b` around position `i` of `a`. */
  lemma SlicesBefore(a: string, b: string, c: char, i: nat)
    requires i <= |a|
    ensures (a + [c] + b)[..i] == a[..i]
    ensures (a + [c] + b)[i] == (if i == |a| then c else a[i])
    ensures (a + [c] + b)[i + 1..] == (if i == |a| then b else a[i + 1..] + [c] + b)
  {
  }

  /** When `a` has no separator, the first piece of `a + [c] + b` is `a` itself. */
  lemma SplitAfterWhole(a: string, b: string, c: char)
    requires IndexOf(a, c) == |a|
    ensures Split(a + [c] + b, c) == Split(a, c) + Split(b, c)
  {
    var s := a + [c] + b;
    SlicesBefore(a, b, c, |a|);
    assert a[..|a|] == a;
    IndexOfUnique(s, c, |a|);
    SplitAtFirst(s, c);
    SplitWhole(a, c);
  }

  /** When `a` has a separator, `a + [c] + b` splits first where `a` does. */
  lemma SplitAtFirstOfLeft(a: string, b: string, c: char)
    requires IndexOf(a, c) < |a|
    ensures var i := IndexOf(a, c);
      Split(a + [c] + b, c) == [a[..i]] + Split(a[i + 1..] + [c] + b, c)
  {
    var s := a + [c] + b;
    var i := IndexOf(a, c);
    SlicesBefore(a, b, c, i);
    IndexOfUnique(s, c, i);
    SplitAtFirst(s, c);
  }

  /** Splitting a string at one of its separators splits the two sides independently. */
  lemma {:induction false} SplitAround(a: string, b: string, c: char)
    ensures Split(a + [c] + b, c) == Split(a, c) + Split(b, c)
    decreases |a|
  {
    var i := IndexOf(a, c);
    if i == |a| {
      SplitAfterWhole(a, b, c);
    } else {
      SplitAtFirstOfLeft(a, b, c);
      SplitAround(a[i + 1..], b, c);
      SplitAtFirst(a, c);
      assert [a[..i]] + (Split(a[i + 1..], c) + Split(b, c)) == [a[..i]] + Split(a[i + 1..], c) + Split(b, c);
    }
  }
}
