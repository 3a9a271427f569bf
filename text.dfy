/**
 * The JavaScript string operations the application relies on, over
 * strings modelled as `seq<char>`, a sequence of Unicode scalar values: `trim`,
 * `toLowerCase` (ASCII letters only), `split` on one character or on runs
 * of whitespace (`/\s+/`), and `join`.
 */
module Text {

  /** The characters matched by `\s` and removed by `trim`: WhiteSpace and LineTerminator. */
  predicate IsSpace(c: char) {
    var n := c as int;
    || (9 <= n <= 13)              // tab, line feed, vertical tab, form feed, carriage return
    || n == 32 || n == 0xA0 || n == 0x1680
    || (0x2000 <= n <= 0x200A)
    || n == 0x2028 || n == 0x2029 || n == 0x202F || n == 0x205F
    || n == 0x3000 || n == 0xFEFF
  }

  predicate HasSpace(s: string) {
    exists k :: 0 <= k < |s| && IsSpace(s[k])
  }

  /** Neither the first nor the last character is whitespace. */
  predicate IsTrimmed(s: string) {
    s == [] || (!IsSpace(s[0]) && !IsSpace(s[|s| - 1]))
  }

  // ---------------------------------------------------------------- trim

  function TrimStart(s: string): (r: string)
    ensures r == [] || !IsSpace(r[0])
    ensures |r| <= |s| && r == s[|s| - |r|..]
    ensures forall k :: 0 <= k < |s| - |r| ==> IsSpace(s[k])
  {
    if s != [] && IsSpace(s[0]) then TrimStart(s[1..]) else s
  }

  function TrimEnd(s: string): (r: string)
    ensures r == [] || !IsSpace(r[|r| - 1])
    ensures |r| <= |s| && r == s[..|r|]
    ensures forall k :: |r| <= k < |s| ==> IsSpace(s[k])
  {
    if s != [] && IsSpace(s[|s| - 1]) then TrimEnd(s[..|s| - 1]) else s
  }

  /** `s.trim()`: `s` without its leading and trailing whitespace. */
  function Trim(s: string): (r: string)
    ensures IsTrimmed(r)
    ensures |r| <= |s|
    ensures r == [] <==> forall k :: 0 <= k < |s| ==> IsSpace(s[k])
  {
    var t := TrimStart(s);
    var r := TrimEnd(t);
    assert r != [] ==> !IsSpace(r[0]) by {
      if r != [] { assert r[0] == t[0]; }
    }
    assert r == [] ==> forall k :: 0 <= k < |s| ==> IsSpace(s[k]) by {
      if r == [] {
        assert t == [];
      }
    }
    assert r != [] ==> !IsSpace(s[|s| - |t|]) by {
      if r != [] { assert s[|s| - |t|] == t[0] == r[0]; }
    }
    r
  }

  /** Trimming only removes characters: a character absent from `s` is absent from `Trim(s)`. */
  lemma TrimKeepsOut(s: string, c: char)
    requires c !in s
    ensures c !in Trim(s)
  {
    var t := TrimStart(s);
    assert forall k :: 0 <= k < |t| ==> t[k] == s[|s| - |t| + k];
    var r := TrimEnd(t);
    assert forall k :: 0 <= k < |r| ==> r[k] == t[k];
  }

  lemma TrimOfTrimmed(s: string)
    requires IsTrimmed(s)
    ensures Trim(s) == s
  {
  }

  /** Whitespace in front of a trimmed string is exactly what `trim` removes. */
  lemma {:induction false} TrimLeadingSpaces(w: string, t: string)
    requires forall k :: 0 <= k < |w| ==> IsSpace(w[k])
    requires IsTrimmed(t) && t != []
    ensures Trim(w + t) == t
  {
    if w == [] {
      assert w + t == t;
    } else {
      assert (w + t)[1..] == w[1..] + t;
      TrimLeadingSpaces(w[1..], t);
    }
  }

  /** Trimming a whitespace-only string leaves nothing. */
  lemma TrimStartBlank(w: string)
    requires forall k :: 0 <= k < |w| ==> IsSpace(w[k])
    ensures TrimStart(w) == []
  {
  }

  /** Whitespace in front of a string is what `trimStart` removes first. */
  lemma {:induction false} TrimStartSpaces(w: string, s: string)
    requires forall k :: 0 <= k < |w| ==> IsSpace(w[k])
    ensures TrimStart(w + s) == TrimStart(s)
  {
    if w != [] {
      assert (w + s)[1..] == w[1..] + s;
      TrimStartSpaces(w[1..], s);
    } else {
      assert w + s == s;
    }
  }

  /** Whitespace behind a string is what `trimEnd` removes first. */
  lemma {:induction false} TrimEndSpaces(s: string, w: string)
    requires forall k :: 0 <= k < |w| ==> IsSpace(w[k])
    ensures TrimEnd(s + w) == TrimEnd(s)
  {
    if w != [] {
      var v := w[..|w| - 1];
      assert (s + w)[..|s + w| - 1] == s + v;
      TrimEndSpaces(s, v);
    } else {
      assert s + w == s;
    }
  }

  /** Trailing whitespace survives `trimStart` unless everything is whitespace. */
  lemma {:induction false} TrimStartAppendSpaces(s: string, w: string)
    requires forall k :: 0 <= k < |w| ==> IsSpace(w[k])
    ensures TrimStart(s + w) == if TrimStart(s) == [] then [] else TrimStart(s) + w
  {
    if s == [] {
      assert s + w == [] + w;
      TrimStartSpaces(w, []);
      assert w + [] == w;
    } else if IsSpace(s[0]) {
      assert (s + w)[1..] == s[1..] + w;
      TrimStartAppendSpaces(s[1..], w);
    }
  }

  /** `trim` ignores whitespace added around a string. */
  lemma TrimOuterSpaces(w1: string, s: string, w2: string)
    requires forall k :: 0 <= k < |w1| ==> IsSpace(w1[k])
    requires forall k :: 0 <= k < |w2| ==> IsSpace(w2[k])
    ensures Trim(w1 + s + w2) == Trim(s)
  {
    assert w1 + s + w2 == w1 + (s + w2);
    TrimStartSpaces(w1, s + w2);
    TrimStartAppendSpaces(s, w2);
    if TrimStart(s) != [] {
      TrimEndSpaces(TrimStart(s), w2);
    }
  }

  // ---------------------------------------------------------------- case

  /** `toLowerCase` on one character, for ASCII letters. */
  function LowerChar(c: char): char {
    if 'A' <= c <= 'Z' then (c as int + 32) as char else c
  }

  /** `toUpperCase` on one character, for ASCII letters. */
  function UpperChar(c: char): char {
    if 'a' <= c <= 'z' then (c as int - 32) as char else c
  }

  function ToLower(s: string): (r: string)
    ensures |r| == |s|
    ensures forall k :: 0 <= k < |s| ==> r[k] == LowerChar(s[k])
  {
    if s == [] then [] else [LowerChar(s[0])] + ToLower(s[1..])
  }

  lemma ToLowerAppend(a: string, b: string)
    ensures ToLower(a + b) == ToLower(a) + ToLower(b)
  {
  }

  lemma LowerCharIdempotent(c: char)
    ensures LowerChar(LowerChar(c)) == LowerChar(c)
  {
  }

  /** Lowercasing keeps whitespace where it is. */
  lemma LowerKeepsSpace(c: char)
    ensures IsSpace(LowerChar(c)) == IsSpace(c)
  {
  }

  /** Lowercasing neither adds nor removes whitespace. */
  lemma HasSpaceToLower(s: string)
    ensures HasSpace(ToLower(s)) == HasSpace(s)
  {
    var l := ToLower(s);
    if HasSpace(s) {
      var k :| 0 <= k < |s| && IsSpace(s[k]);
      LowerKeepsSpace(s[k]);
      assert IsSpace(l[k]);
    }
    if HasSpace(l) {
      var k :| 0 <= k < |l| && IsSpace(l[k]);
      LowerKeepsSpace(s[k]);
    }
  }

  /** Lowercasing twice is lowercasing once. */
  lemma ToLowerIdempotent(s: string)
    ensures ToLower(ToLower(s)) == ToLower(s)
  {
    forall k | 0 <= k < |s| ensures ToLower(ToLower(s))[k] == ToLower(s)[k] {
      LowerCharIdempotent(s[k]);
    }
  }

  /** Lowercasing commutes with trimming. */
  lemma {:induction false} TrimToLower(s: string)
    ensures Trim(ToLower(s)) == ToLower(Trim(s))
  {
    TrimStartToLower(s);
    TrimEndToLower(TrimStart(s));
  }

  lemma {:induction false} TrimStartToLower(s: string)
    ensures TrimStart(ToLower(s)) == ToLower(TrimStart(s))
  {
    if s != [] {
      var l := ToLower(s);
      assert l[0] == LowerChar(s[0]);
      LowerKeepsSpace(s[0]);
      if IsSpace(s[0]) {
        assert l[1..] == ToLower(s[1..]);
        TrimStartToLower(s[1..]);
      }
    }
  }

  lemma {:induction false} TrimEndToLower(s: string)
    ensures TrimEnd(ToLower(s)) == ToLower(TrimEnd(s))
  {
    if s != [] {
      var l := ToLower(s);
      assert l[|s| - 1] == LowerChar(s[|s| - 1]);
      LowerKeepsSpace(s[|s| - 1]);
      if IsSpace(s[|s| - 1]) {
        assert l[..|s| - 1] == ToLower(s[..|s| - 1]);
        TrimEndToLower(s[..|s| - 1]);
      }
    }
  }

  // ---------------------------------------------------------------- split and join

  /** Index of the first occurrence of `c` in `s`, or `|s|` when there is none. */
  function IndexOf(s: string, c: char): (i: nat)
    ensures i <= |s|
    ensures i < |s| ==> s[i] == c
    ensures forall k :: 0 <= k < i ==> s[k] != c
  {
    if s == [] then 0 else if s[0] == c then 0 else 1 + IndexOf(s[1..], c)
  }

  /** `s.split(c)` for a one-character separator. */
  function Split(s: string, c: char): (r: seq<string>)
    ensures |r| >= 1
    ensures forall k :: 0 <= k < |r| ==> c !in r[k]
    decreases |s|
  {
    var i := IndexOf(s, c);
    if i == |s| then [s] else [s[..i]] + Split(s[i + 1..], c)
  }

  /** `parts.join(sep)`. */
  function Join(parts: seq<string>, sep: string): string {
    if parts == [] then []
    else if |parts| == 1 then parts[0]
    else parts[0] + sep + Join(parts[1..], sep)
  }

  /** Splitting at a separator in front of which no separator occurs. */
  lemma SplitFirst(a: string, c: char, b: string)
    requires c !in a
    ensures Split(a + [c] + b, c) == [a] + Split(b, c)
  {
    var s := a + [c] + b;
    assert IndexOf(s, c) == |a| by {
      assert s[|a|] == c;
      assert forall k :: 0 <= k < |a| ==> s[k] == a[k];
    }
    assert s[..|a|] == a && s[|a| + 1..] == b;
  }

  lemma SplitNone(s: string, c: char)
    requires c !in s
    ensures Split(s, c) == [s]
  {
  }

  /** Joining the pieces of a split with the separator gives the string back. */
  lemma {:induction false} JoinSplit(s: string, c: char)
    ensures Join(Split(s, c), [c]) == s
    decreases |s|
  {
    var i := IndexOf(s, c);
    if i < |s| {
      var rest := Split(s[i + 1..], c);
      var parts := [s[..i]] + rest;
      assert Split(s, c) == parts;
      assert parts[1..] == rest;
      assert Join(parts, [c]) == s[..i] + [c] + Join(rest, [c]);
      JoinSplit(s[i + 1..], c);
      assert s == s[..i] + [c] + s[i + 1..];
    }
  }

  // ---------------------------------------------------------------- split on /\s+/

  /** Index of the first whitespace character of `s`, or `|s|`. */
  function IndexOfSpace(s: string): (i: nat)
    ensures i <= |s|
    ensures i < |s| ==> IsSpace(s[i])
    ensures forall k :: 0 <= k < i ==> !IsSpace(s[k])
  {
    if s == [] then 0 else if IsSpace(s[0]) then 0 else 1 + IndexOfSpace(s[1..])
  }

  /**
   * `s.split(/\s+/)`: the pieces of `s` between maximal runs of whitespace.
   * Leading (trailing) whitespace gives an empty first (last) piece.
   */
  function SplitWhitespace(s: string): (r: seq<string>)
    ensures |r| >= 1
    ensures !HasSpace(s) ==> r == [s]
    decreases |s|
  {
    var i := IndexOfSpace(s);
    if i == |s| then [s]
    else [s[..i]] + SplitWhitespace(TrimStart(s[i..]))
  }

  /** One step of the split: the piece before the first whitespace, then the split of what follows the run. */
  lemma SplitWhitespaceAt(s: string, i: nat)
    requires i == IndexOfSpace(s) && i < |s|
    ensures SplitWhitespace(s) == [s[..i]] + SplitWhitespace(TrimStart(s[i..]))
  {
  }

  /** No piece of the split holds whitespace. */
  lemma {:induction false} SplitWhitespacePieces(s: string)
    ensures forall k :: 0 <= k < |SplitWhitespace(s)| ==> !HasSpace(SplitWhitespace(s)[k])
    decreases |s|
  {
    var i := IndexOfSpace(s);
    if i < |s| {
      assert IsSpace(s[i]);
      SplitWhitespacePieces(TrimStart(s[i..]));
    }
  }

  /** There is more than one piece exactly when the string holds whitespace. */
  lemma SplitWhitespaceSeveral(s: string)
    ensures |SplitWhitespace(s)| > 1 <==> HasSpace(s)
  {
    var i := IndexOfSpace(s);
    if i < |s| {
      assert IsSpace(s[i]);
    }
  }

  /** Splitting the join of pieces that hold no separator gives the pieces back. */
  lemma {:induction false} SplitJoin(parts: seq<string>, c: char)
    requires parts != []
    requires forall k :: 0 <= k < |parts| ==> c !in parts[k]
    ensures Split(Join(parts, [c]), c) == parts
    decreases |parts|
  {
    if |parts| == 1 {
      SplitNone(parts[0], c);
    } else {
      SplitJoin(parts[1..], c);
      SplitFirst(parts[0], c, Join(parts[1..], [c]));
      assert parts == [parts[0]] + parts[1..];
    }
  }

  lemma JoinCons(a: string, rest: seq<string>, sep: string)
    requires rest != []
    ensures Join([a] + rest, sep) == a + sep + Join(rest, sep)
  {
    assert ([a] + rest)[1..] == rest;
  }

  /** The characters of `s` that are not whitespace, in their order. */
  function DropSpaces(s: string): string
    decreases |s|
  {
    if s == [] then [] else (if IsSpace(s[0]) then [] else [s[0]]) + DropSpaces(s[1..])
  }

  lemma {:induction false} DropSpacesAppend(a: string, b: string)
    ensures DropSpaces(a + b) == DropSpaces(a) + DropSpaces(b)
    decreases |a|
  {
    if a == [] {
      assert a + b == b;
    } else {
      assert (a + b)[0] == a[0];
      assert (a + b)[1..] == a[1..] + b;
      DropSpacesAppend(a[1..], b);
    }
  }

  lemma {:induction false} DropSpacesNone(s: string)
    requires forall k :: 0 <= k < |s| ==> !IsSpace(s[k])
    ensures DropSpaces(s) == s
    decreases |s|
  {
    if s != [] {
      DropSpacesNone(s[1..]);
    }
  }

  lemma {:induction false} DropSpacesBlank(s: string)
    requires forall k :: 0 <= k < |s| ==> IsSpace(s[k])
    ensures DropSpaces(s) == []
    decreases |s|
  {
    if s != [] {
      DropSpacesBlank(s[1..]);
    }
  }

  /** `s` with each maximal run of whitespace replaced by a single space. */
  function Collapse(s: string): string
    decreases |s|
  {
    if s == [] then []
    else if IsSpace(s[0]) then [' '] + Collapse(TrimStart(s[1..]))
    else [s[0]] + Collapse(s[1..])
  }

  lemma {:induction false} CollapseWordFirst(a: string, b: string)
    requires forall k :: 0 <= k < |a| ==> !IsSpace(a[k])
    ensures Collapse(a + b) == a + Collapse(b)
    decreases |a|
  {
    if a == [] {
      assert a + b == b;
    } else {
      assert (a + b)[0] == a[0];
      assert (a + b)[1..] == a[1..] + b;
      CollapseWordFirst(a[1..], b);
    }
  }

  /** A whitespace run in front of a string that starts with none collapses to one space. */
  lemma CollapseSpacesFirst(w: string, t: string)
    requires w != [] && forall k :: 0 <= k < |w| ==> IsSpace(w[k])
    requires t == [] || !IsSpace(t[0])
    ensures Collapse(w + t) == [' '] + Collapse(t)
  {
    assert (w + t)[0] == w[0];
    assert (w + t)[1..] == w[1..] + t;
    TrimStartSpaces(w[1..], t);
  }

  /**
   * One step of the split, named: `s` is its first piece `a`, a non-empty run
   * `w` of whitespace and a rest `t` that does not start with whitespace.
   */
  lemma SplitWhitespaceParts(s: string) returns (a: string, w: string, t: string)
    requires IndexOfSpace(s) < |s|
    ensures s == a + (w + t) && |t| < |s|
    ensures forall k :: 0 <= k < |a| ==> !IsSpace(a[k])
    ensures w != [] && forall k :: 0 <= k < |w| ==> IsSpace(w[k])
    ensures t == [] || !IsSpace(t[0])
    ensures SplitWhitespace(s) == [a] + SplitWhitespace(t)
  {
    var v;
    a, v := SpaceFreePrefix(s);
    w, t := TrimStartParts(v);
    assert SplitWhitespace(s) == [a] + SplitWhitespace(t) by {
      SplitWhitespaceAt(s, IndexOfSpace(s));
    }
  }

  /** `s` split at its first whitespace character. */
  lemma SpaceFreePrefix(s: string) returns (a: string, v: string)
    ensures s == a + v
    ensures a == s[..IndexOfSpace(s)] && v == s[IndexOfSpace(s)..]
    ensures forall k :: 0 <= k < |a| ==> !IsSpace(a[k])
    ensures IndexOfSpace(s) < |s| ==> v != [] && IsSpace(v[0])
  {
    a := s[..IndexOfSpace(s)];
    v := s[IndexOfSpace(s)..];
  }

  /** `trimStart` splits a string into the whitespace it removes and what it keeps. */
  lemma TrimStartParts(u: string) returns (w: string, t: string)
    ensures u == w + t && t == TrimStart(u)
    ensures forall k :: 0 <= k < |w| ==> IsSpace(w[k])
    ensures u != [] && IsSpace(u[0]) ==> w != []
    ensures t == [] || !IsSpace(t[0])
  {
    t := TrimStart(u);
    w := u[..|u| - |t|];
    assert u == w + u[|u| - |t|..];
  }

  /** The first whitespace of `a + b`, where `a` has none and `b` starts with one, is at `|a|`. */
  lemma {:induction false} IndexOfSpaceAfter(a: string, b: string)
    requires forall k :: 0 <= k < |a| ==> !IsSpace(a[k])
    requires b != [] && IsSpace(b[0])
    ensures IndexOfSpace(a + b) == |a|
  {
    if a != [] {
      assert (a + b)[1..] == a[1..] + b;
      IndexOfSpaceAfter(a[1..], b);
    } else {
      assert a + b == b;
    }
  }

  /** The converse of the step: a word, a whitespace run and a rest split into the word and the rest's pieces. */
  lemma SplitAfterWord(a: string, w: string, t: string)
    requires forall k :: 0 <= k < |a| ==> !IsSpace(a[k])
    requires w != [] && forall k :: 0 <= k < |w| ==> IsSpace(w[k])
    requires t == [] || !IsSpace(t[0])
    ensures SplitWhitespace(a + w + t) == [a] + SplitWhitespace(t)
  {
    var s := a + w + t;
    assert s == a + (w + t);
    IndexOfSpaceAfter(a, w + t);
    SplitWhitespaceAt(s, |a|);
    assert s[..|a|] == a && s[|a|..] == w + t;
    TrimStartSpaces(w, t);
  }

  /** Concatenated, the pieces of the split give `s` with its whitespace removed. */
  lemma {:induction false} SplitWhitespaceConcat(s: string)
    ensures Join(SplitWhitespace(s), []) == DropSpaces(s)
    decreases |s|
  {
    if IndexOfSpace(s) == |s| {
      DropSpacesNone(s);
    } else {
      var a, w, t := SplitWhitespaceParts(s);
      JoinCons(a, SplitWhitespace(t), []);
      SplitWhitespaceConcat(t);
      DropSpacesStep(s, a, w, t);
      assert a + [] == a;
    }
  }

  lemma DropSpacesStep(s: string, a: string, w: string, t: string)
    requires s == a + (w + t)
    requires forall k :: 0 <= k < |a| ==> !IsSpace(a[k])
    requires forall k :: 0 <= k < |w| ==> IsSpace(w[k])
    ensures DropSpaces(s) == a + DropSpaces(t)
  {
    assert DropSpaces(w + t) == DropSpaces(t) by {
      DropSpacesAppend(w, t);
      DropSpacesBlank(w);
      assert [] + DropSpaces(t) == DropSpaces(t);
    }
    DropSpacesAppend(a, w + t);
    DropSpacesNone(a);
  }

  /** The first piece is empty exactly when `s` is empty or starts with whitespace. */
  lemma SplitWhitespaceFirstPiece(s: string)
    ensures SplitWhitespace(s)[0] == [] <==> s == [] || IsSpace(s[0])
  {
    if IndexOfSpace(s) < |s| {
      SplitWhitespaceAt(s, IndexOfSpace(s));
    }
  }

  /** Only the first and the last piece can be empty. */
  lemma {:induction false} SplitWhitespaceInnerPieces(s: string)
    ensures forall k :: 0 < k < |SplitWhitespace(s)| - 1 ==> SplitWhitespace(s)[k] != []
    decreases |s|
  {
    if IndexOfSpace(s) < |s| {
      var a, w, t := SplitWhitespaceParts(s);
      var rest := SplitWhitespace(t);
      SplitWhitespaceInnerPieces(t);
      if |rest| > 1 {
        SplitWhitespaceSeveral(t);
        SplitWhitespaceFirstPiece(t);
      }
      InnerAfterHead(SplitWhitespace(s), a, rest);
    }
  }

  lemma InnerAfterHead(r: seq<string>, a: string, rest: seq<string>)
    requires r == [a] + rest
    requires forall k :: 0 < k < |rest| - 1 ==> rest[k] != []
    requires |rest| > 1 ==> rest[0] != []
    ensures forall k :: 0 < k < |r| - 1 ==> r[k] != []
  {
    assert forall k :: 0 < k < |r| ==> r[k] == rest[k - 1];
  }

  /** Joined with single spaces, the pieces give `s` with its whitespace runs collapsed. */
  lemma {:induction false} SplitWhitespaceCollapse(s: string)
    ensures Join(SplitWhitespace(s), [' ']) == Collapse(s)
    decreases |s|
  {
    if IndexOfSpace(s) == |s| {
      CollapseWordFirst(s, []);
      assert s + [] == s;
    } else {
      var a, w, t := SplitWhitespaceParts(s);
      JoinCons(a, SplitWhitespace(t), [' ']);
      SplitWhitespaceCollapse(t);
      CollapseStep(s, a, w, t);
    }
  }

  lemma CollapseStep(s: string, a: string, w: string, t: string)
    requires s == a + (w + t)
    requires forall k :: 0 <= k < |a| ==> !IsSpace(a[k])
    requires w != [] && forall k :: 0 <= k < |w| ==> IsSpace(w[k])
    requires t == [] || !IsSpace(t[0])
    ensures Collapse(s) == a + [' '] + Collapse(t)
  {
    CollapseWordFirst(a, w + t);
    CollapseSpacesFirst(w, t);
  }

  /**
   * A reference definition of `split(/\s+/)`: collapse every whitespace run to
   * one space, then split on that space.
   */
  lemma SplitWhitespaceIsSplitOfCollapse(s: string)
    ensures SplitWhitespace(s) == Split(Collapse(s), ' ')
  {
    var r := SplitWhitespace(s);
    SplitWhitespaceCollapse(s);
    SplitWhitespacePieces(s);
    assert IsSpace(' ');
    SplitJoin(r, ' ');
  }
}
