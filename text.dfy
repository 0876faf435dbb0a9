/** The JavaScript string built-ins the certificate generator relies on:
    `trim`, `toLowerCase`, `includes`, `startsWith`, `endsWith`, `split`
    with a one-character separator, and `replace(/\s+/g, rep)`. */
module Text {

  /** ECMAScript WhiteSpace and LineTerminator code points: the characters
      `String.prototype.trim` removes and the regular-expression class `\s`
      matches. */
  predicate IsWhitespace(c: char) {
    c == '\t' || c == '\n' || c == '\U{B}' || c == '\U{C}' || c == '\r' || c == ' ' ||
    c == '\U{A0}' || c == '\U{1680}' || ('\U{2000}' <= c <= '\U{200A}') ||
    c == '\U{2028}' || c == '\U{2029}' || c == '\U{202F}' || c == '\U{205F}' ||
    c == '\U{3000}' || c == '\U{FEFF}'
  }

  predicate NoWhitespace(s: string) {
    forall k :: 0 <= k < |s| ==> !IsWhitespace(s[k])
  }

  predicate AllWhitespace(s: string) {
    forall k :: 0 <= k < |s| ==> IsWhitespace(s[k])
  }

  /** Neither starts nor ends with whitespace: what `trim` leaves behind. */
  predicate Trimmed(s: string) {
    s == [] || (!IsWhitespace(s[0]) && !IsWhitespace(s[|s| - 1]))
  }

  // ---------------------------------------------------------------- trim

  /** `trimStart`: the longest suffix that does not start with whitespace. */
  function TrimStart(s: string): (r: string)
    ensures |r| <= |s|
    ensures r != [] ==> !IsWhitespace(r[0])
  {
    if s != [] && IsWhitespace(s[0]) then TrimStart(s[1..]) else s
  }

  /** `trimStart` cuts off a prefix, and only whitespace. */
  lemma {:induction false} TrimStartSlice(s: string)
    ensures TrimStart(s) == s[|s| - |TrimStart(s)|..]
    ensures AllWhitespace(s[..|s| - |TrimStart(s)|])
  {
    if s != [] && IsWhitespace(s[0]) {
      TrimStartSlice(s[1..]);
      var n := |s| - |TrimStart(s)|;
      assert s[1..][n - 1..] == s[n..];
      assert forall k :: 1 <= k < n ==> s[k] == s[1..][..n - 1][k - 1];
    }
  }

  /** `trimEnd`: the longest prefix that does not end with whitespace. */
  function TrimEnd(s: string): (r: string)
    ensures |r| <= |s|
    ensures r != [] ==> !IsWhitespace(r[|r| - 1])
  {
    if s != [] && IsWhitespace(s[|s| - 1]) then TrimEnd(s[..|s| - 1]) else s
  }

  /** `trimEnd` cuts off a suffix, and only whitespace. */
  lemma {:induction false} TrimEndSlice(s: string)
    ensures TrimEnd(s) == s[..|TrimEnd(s)|]
    ensures AllWhitespace(s[|TrimEnd(s)|..])
  {
    if s != [] && IsWhitespace(s[|s| - 1]) {
      var u := s[..|s| - 1];
      TrimEndSlice(u);
      var n := |TrimEnd(s)|;
      assert u[..n] == s[..n];
      assert forall k :: n <= k < |s| - 1 ==> s[k] == u[n..][k - n];
    }
  }

  lemma {:induction false} TrimStartEmpty(s: string)
    ensures TrimStart(s) == [] <==> AllWhitespace(s)
  {
    TrimStartSlice(s);
    var t := TrimStart(s);
    if t == [] {
      assert s[..|s|] == s;
    } else {
      assert t[0] == s[|s| - |t|];
    }
  }

  lemma {:induction false} TrimEndEmpty(s: string)
    ensures TrimEnd(s) == [] <==> AllWhitespace(s)
  {
    TrimEndSlice(s);
    var t := TrimEnd(s);
    if t == [] {
      assert s[0..] == s;
    } else {
      assert t[|t| - 1] == s[|t| - 1];
    }
  }

  /** `trim`: the text between the leading and the trailing whitespace. */
  function Trim(s: string): (r: string)
    ensures |r| <= |s|
    ensures Trimmed(r)
  {
    var t := TrimStart(s);
    var r := TrimEnd(t);
    TrimEndSlice(t);
    assert r != [] ==> r[0] == t[0];
    r
  }

  /** `trim` leaves nothing exactly when the text is all whitespace. */
  lemma TrimEmpty(s: string)
    ensures Trim(s) == [] <==> AllWhitespace(s)
  {
    TrimStartEmpty(s);
    TrimEndEmpty(TrimStart(s));
  }

  /** What `trim` returns is the slice of `s` left once its leading and its
      trailing whitespace are cut off. */
  lemma {:induction false} TrimWindow(s: string)
    ensures var lead := |s| - |TrimStart(s)|;
      && lead + |Trim(s)| <= |s|
      && Trim(s) == s[lead..lead + |Trim(s)|]
      && AllWhitespace(s[..lead])
      && AllWhitespace(s[lead + |Trim(s)|..])
  {
    var t := TrimStart(s);
    var r := TrimEnd(t);
    TrimStartSlice(s);
    TrimEndSlice(t);
    var lead := |s| - |t|;
    assert r == Trim(s);
    SliceOfSuffix(s, lead, |r|);
  }

  /** Slicing a suffix is slicing the whole. */
  lemma SliceOfSuffix<T>(s: seq<T>, a: nat, b: nat)
    requires a + b <= |s|
    ensures s[a..][..b] == s[a..a + b]
    ensures s[a..][b..] == s[a + b..]
  {
  }

  lemma {:induction false} TrimStartOfTrimmed(s: string)
    requires s == [] || !IsWhitespace(s[0])
    ensures TrimStart(s) == s
  {
  }

  lemma {:induction false} TrimEndOfTrimmed(s: string)
    requires s == [] || !IsWhitespace(s[|s| - 1])
    ensures TrimEnd(s) == s
  {
  }

  /** Trimming twice is trimming once. */
  lemma {:induction false} TrimIdempotent(s: string)
    ensures Trim(Trim(s)) == Trim(s)
  {
    var r := Trim(s);
    TrimStartOfTrimmed(r);
    TrimEndOfTrimmed(r);
  }

  /** Leading whitespace followed by text that does not start with whitespace
      trims back to that text. */
  lemma {:induction false} TrimStartAfterWhitespace(w: string, b: string)
    requires AllWhitespace(w)
    requires b == [] || !IsWhitespace(b[0])
    ensures TrimStart(w + b) == b
  {
    if w != [] {
      assert (w + b)[1..] == w[1..] + b;
      TrimStartAfterWhitespace(w[1..], b);
    } else {
      assert w + b == b;
    }
  }

  /** When `u` holds a character other than whitespace, `trimStart` never
      reaches past `u`. */
  lemma {:induction false} TrimStartConcat(u: string, v: string)
    requires !AllWhitespace(u)
    ensures TrimStart(u + v) == TrimStart(u) + v
  {
    if IsWhitespace(u[0]) {
      assert (u + v)[1..] == u[1..] + v;
      assert !AllWhitespace(u[1..]) by {
        var k :| 0 <= k < |u| && !IsWhitespace(u[k]);
        assert u[1..][k - 1] == u[k];
      }
      TrimStartConcat(u[1..], v);
    }
  }

  // ---------------------------------------------------------- toLowerCase

  /** Lower-case mapping of the ASCII letters A-Z; every other character is
      its own lower case in this model. */
  function LowerChar(c: char): (r: char)
    ensures 'A' <= c <= 'Z' ==> 'a' <= r <= 'z' && r as int - c as int == 32
    ensures !('A' <= c <= 'Z') ==> r == c
  {
    if 'A' <= c <= 'Z' then (c as int + 32) as char else c
  }

  /** `toLowerCase`, character by character. */
  function ToLower(s: string): (r: string)
    ensures |r| == |s|
  {
    seq(|s|, k requires 0 <= k < |s| => LowerChar(s[k]))
  }

  /** Lower-casing commutes with taking a suffix. */
  lemma ToLowerSuffix(s: string, i: nat)
    requires i <= |s|
    ensures ToLower(s)[i..] == ToLower(s[i..])
  {
  }

  // ------------------------------------------- includes, startsWith, endsWith

  /** `s.includes(sub)`, scanning start positions from the left. */
  predicate Contains(s: string, sub: string)
    decreases |s|
  {
    sub <= s || (s != [] && Contains(s[1..], sub))
  }

  /** An occurrence of `sub` at position `i` makes `includes` hold. */
  lemma {:induction false} ContainsAt(s: string, sub: string, i: nat)
    requires i <= |s| && sub <= s[i..]
    ensures Contains(s, sub)
    decreases i
  {
    if i > 0 {
      assert s[1..][i - 1..] == s[i..];
      ContainsAt(s[1..], sub, i - 1);
    } else {
      assert s[i..] == s;
    }
  }

  /** When `includes` holds, `sub` occurs at some position of `s`. */
  lemma {:induction false} ContainsWitness(s: string, sub: string) returns (i: nat)
    requires Contains(s, sub)
    ensures i <= |s| && sub <= s[i..]
    decreases |s|
  {
    if sub <= s {
      i := 0;
      assert s[0..] == s;
    } else {
      var j := ContainsWitness(s[1..], sub);
      assert s[1..][j..] == s[j + 1..];
      i := j + 1;
    }
  }

  predicate StartsWith(s: string, prefix: string) {
    prefix <= s
  }

  predicate EndsWith(s: string, suffix: string) {
    |suffix| <= |s| && s[|s| - |suffix|..] == suffix
  }

  // --------------------------------------------------------------- split

  /** The position of the first `sep` at or after `i`, or `|s|` when there is
      none. */
  function NextSep(s: string, sep: char, i: nat): (j: nat)
    requires i <= |s|
    ensures i <= j <= |s|
    ensures j < |s| ==> s[j] == sep
    decreases |s| - i
  {
    if i == |s| || s[i] == sep then i else NextSep(s, sep, i + 1)
  }

  /** No separator lies between `i` and the one `NextSep` finds. */
  lemma {:induction false} NextSepSkipsNone(s: string, sep: char, i: nat)
    requires i <= |s|
    ensures forall k :: i <= k < NextSep(s, sep, i) ==> s[k] != sep
    decreases |s| - i
  {
    if i < |s| && s[i] != sep {
      NextSepSkipsNone(s, sep, i + 1);
    }
  }

  /** The pieces of `s[start..]`, each running up to the next separator. */
  function SplitFrom(s: string, sep: char, start: nat): (parts: seq<string>)
    requires start <= |s|
    ensures |parts| >= 1
    decreases |s| - start
  {
    var j := NextSep(s, sep, start);
    if j == |s| then [s[start..]] else [s[start..j]] + SplitFrom(s, sep, j + 1)
  }

  /** `s.split(sep)` for a one-character separator: the pieces between
      separators, always at least one (`"".split(sep)` is `[""]`). */
  function Split(s: string, sep: char): (parts: seq<string>)
    ensures |parts| >= 1
  {
    SplitFrom(s, sep, 0)
  }

  /** `parts.join(sep)`. */
  function Join(parts: seq<string>, sep: char): string
    requires |parts| >= 1
    decreases |parts|
  {
    if |parts| == 1 then parts[0] else parts[0] + [sep] + Join(parts[1..], sep)
  }

  /** Cutting `s[i..]` at position `j` into what precedes, the character
      there and what follows. */
  lemma SliceAround<T>(s: seq<T>, i: nat, j: nat)
    requires i <= j < |s|
    ensures s[i..] == s[i..j] + [s[j]] + s[j + 1..]
  {
  }

  lemma JoinCons(piece: string, rest: seq<string>, sep: char)
    requires |rest| >= 1
    ensures Join([piece] + rest, sep) == piece + [sep] + Join(rest, sep)
  {
    assert ([piece] + rest)[1..] == rest;
  }

  /** No piece holds the separator. */
  lemma {:induction false} SplitFromPiecesFree(s: string, sep: char, start: nat)
    requires start <= |s|
    ensures forall k :: 0 <= k < |SplitFrom(s, sep, start)| ==> sep !in SplitFrom(s, sep, start)[k]
    decreases |s| - start
  {
    var j := NextSep(s, sep, start);
    NextSepSkipsNone(s, sep, start);
    assert sep !in s[start..j] by {
      forall k | 0 <= k < j - start ensures s[start..j][k] != sep {
        assert s[start..j][k] == s[start + k];
      }
    }
    if j < |s| {
      SplitFromPiecesFree(s, sep, j + 1);
    }
  }

  lemma SplitPiecesFree(s: string, sep: char)
    ensures forall k :: 0 <= k < |Split(s, sep)| ==> sep !in Split(s, sep)[k]
  {
    SplitFromPiecesFree(s, sep, 0);
  }

  /** Joining the pieces of `s[start..]` gives `s[start..]` back. */
  lemma {:induction false} JoinSplitFrom(s: string, sep: char, start: nat)
    requires start <= |s|
    ensures Join(SplitFrom(s, sep, start), sep) == s[start..]
    decreases |s| - start
  {
    var j := NextSep(s, sep, start);
    if j < |s| {
      var piece, rest := s[start..j], SplitFrom(s, sep, j + 1);
      calc {
        Join(SplitFrom(s, sep, start), sep);
        Join([piece] + rest, sep);
        { JoinCons(piece, rest, sep); }
        piece + [sep] + Join(rest, sep);
        { JoinSplitFrom(s, sep, j + 1); }
        piece + [sep] + s[j + 1..];
        { SliceAround(s, start, j); }
        s[start..];
      }
    }
  }

  /** Splitting loses nothing: joining the pieces gives the text back. */
  lemma JoinSplit(s: string, sep: char)
    ensures Join(Split(s, sep), sep) == s
  {
    JoinSplitFrom(s, sep, 0);
  }

  // ------------------------------------------------- replace(/\s+/g, rep)

  /** `s.replace(/\s+/g, rep)`: every maximal run of whitespace becomes `rep`. */
  function ReplaceWhitespaceRuns(s: string, rep: string): (r: string)
    ensures rep != [] ==> (r == [] <==> s == [])
    decreases |s|
  {
    if s == [] then []
    else if IsWhitespace(s[0]) then rep + ReplaceWhitespaceRuns(TrimStart(s[1..]), rep)
    else [s[0]] + ReplaceWhitespaceRuns(s[1..], rep)
  }

  /** With a replacement free of whitespace, no whitespace is left. */
  lemma {:induction false} ReplaceLeavesNoWhitespace(s: string, rep: string)
    requires NoWhitespace(rep)
    ensures NoWhitespace(ReplaceWhitespaceRuns(s, rep))
    decreases |s|
  {
    if s != [] {
      if IsWhitespace(s[0]) {
        ReplaceLeavesNoWhitespace(TrimStart(s[1..]), rep);
      } else {
        ReplaceLeavesNoWhitespace(s[1..], rep);
      }
    }
  }

  /** Text without whitespace is left as it is. */
  lemma {:induction false} ReplaceWithoutWhitespace(s: string, rep: string)
    requires NoWhitespace(s)
    ensures ReplaceWhitespaceRuns(s, rep) == s
    decreases |s|
  {
    if s != [] {
      assert NoWhitespace(s[1..]) by {
        forall k | 0 <= k < |s[1..]| ensures !IsWhitespace(s[1..][k]) {
          assert s[1..][k] == s[k + 1];
        }
      }
      ReplaceWithoutWhitespace(s[1..], rep);
      assert [s[0]] + s[1..] == s;
    }
  }

  /** A run made only of whitespace becomes a single `rep`. */
  lemma {:induction false} ReplaceWhitespaceRun(w: string, rep: string)
    requires w != [] && AllWhitespace(w)
    ensures ReplaceWhitespaceRuns(w, rep) == rep
  {
    assert w[1..] + [] == w[1..];
    assert AllWhitespace(w[1..]) by {
      forall k | 0 <= k < |w[1..]| ensures IsWhitespace(w[1..][k]) {
        assert w[1..][k] == w[k + 1];
      }
    }
    TrimStartAfterWhitespace(w[1..], []);
    assert rep + [] == rep;
  }

  /** A whitespace run followed by text that does not start with whitespace
      becomes one `rep` in front of that text's replacement. */
  lemma {:induction false} ReplaceAfterRun(x: string, y: string, rep: string)
    requires x != [] && AllWhitespace(x)
    requires y == [] || !IsWhitespace(y[0])
    ensures ReplaceWhitespaceRuns(x + y, rep) == rep + ReplaceWhitespaceRuns(y, rep)
  {
    assert (x + y)[0] == x[0];
    assert (x + y)[1..] == x[1..] + y;
    assert AllWhitespace(x[1..]) by {
      forall k | 0 <= k < |x[1..]| ensures IsWhitespace(x[1..][k]) {
        assert x[1..][k] == x[k + 1];
      }
    }
    TrimStartAfterWhitespace(x[1..], y);
  }

  /** The replacement distributes over a concatenation whose seam does not
      fall inside a whitespace run. */
  lemma {:induction false} ReplaceConcat(x: string, y: string, rep: string)
    requires x == [] || y == [] || !IsWhitespace(x[|x| - 1]) || !IsWhitespace(y[0])
    ensures ReplaceWhitespaceRuns(x + y, rep)
         == ReplaceWhitespaceRuns(x, rep) + ReplaceWhitespaceRuns(y, rep)
    decreases |x|, 1
  {
    if x == [] {
      assert x + y == y;
    } else if !IsWhitespace(x[0]) {
      assert (x + y)[0] == x[0];
      assert (x + y)[1..] == x[1..] + y;
      ReplaceConcat(x[1..], y, rep);
      assert [x[0]] + (ReplaceWhitespaceRuns(x[1..], rep) + ReplaceWhitespaceRuns(y, rep))
          == ([x[0]] + ReplaceWhitespaceRuns(x[1..], rep)) + ReplaceWhitespaceRuns(y, rep);
    } else if AllWhitespace(x) {
      ReplaceAfterRun(x, y, rep);
      ReplaceWhitespaceRun(x, rep);
    } else {
      ReplaceConcatInnerRun(x, y, rep);
    }
  }

  /** Two words separated by one whitespace run become the words joined by
      a single `rep`. */
  lemma ReplaceBetweenWords(first: string, gap: string, second: string, rep: string)
    requires first != [] && second != [] && NoWhitespace(first) && NoWhitespace(second)
    requires gap != [] && AllWhitespace(gap)
    ensures ReplaceWhitespaceRuns(first + gap + second, rep) == first + rep + second
  {
    var tail := gap + second;
    calc {
      ReplaceWhitespaceRuns(first + gap + second, rep);
      { assert first + gap + second == first + tail; }
      ReplaceWhitespaceRuns(first + tail, rep);
      { assert !IsWhitespace(first[|first| - 1]);
        ReplaceConcat(first, tail, rep); }
      ReplaceWhitespaceRuns(first, rep) + ReplaceWhitespaceRuns(tail, rep);
      { ReplaceWithoutWhitespace(first, rep);
        ReplaceRunBeforeWord(gap, second, rep); }
      first + (rep + second);
      first + rep + second;
    }
  }

  /** A whitespace run followed by a word becomes `rep` followed by the word. */
  lemma ReplaceRunBeforeWord(gap: string, second: string, rep: string)
    requires second != [] && NoWhitespace(second)
    requires gap != [] && AllWhitespace(gap)
    ensures ReplaceWhitespaceRuns(gap + second, rep) == rep + second
  {
    ReplaceAfterRun(gap, second, rep);
    ReplaceWithoutWhitespace(second, rep);
  }

  /** The case of `ReplaceConcat` where `x` starts with a whitespace run that
      ends inside `x`. */
  lemma {:induction false} ReplaceConcatInnerRun(x: string, y: string, rep: string)
    requires x != [] && IsWhitespace(x[0]) && !AllWhitespace(x)
    requires y == [] || !IsWhitespace(x[|x| - 1]) || !IsWhitespace(y[0])
    ensures ReplaceWhitespaceRuns(x + y, rep)
         == ReplaceWhitespaceRuns(x, rep) + ReplaceWhitespaceRuns(y, rep)
    decreases |x|, 0
  {
    var u := x[1..];
    assert !AllWhitespace(u) by {
      var k :| 0 <= k < |x| && !IsWhitespace(x[k]);
      assert u[k - 1] == x[k];
    }
    var t := TrimStart(u);
    TrimStartKeepsLast(u);
    assert u[|u| - 1] == x[|x| - 1];
    calc {
      ReplaceWhitespaceRuns(x + y, rep);
      { assert (x + y)[0] == x[0];
        assert (x + y)[1..] == u + y; }
      rep + ReplaceWhitespaceRuns(TrimStart(u + y), rep);
      { TrimStartConcat(u, y); }
      rep + ReplaceWhitespaceRuns(t + y, rep);
      { ReplaceConcat(t, y, rep); }
      rep + (ReplaceWhitespaceRuns(t, rep) + ReplaceWhitespaceRuns(y, rep));
      (rep + ReplaceWhitespaceRuns(t, rep)) + ReplaceWhitespaceRuns(y, rep);
      ReplaceWhitespaceRuns(x, rep) + ReplaceWhitespaceRuns(y, rep);
    }
  }

  /** When `u` holds a character other than whitespace, `trimStart` keeps its
      last character. */
  lemma TrimStartKeepsLast(u: string)
    requires !AllWhitespace(u)
    ensures TrimStart(u) != [] && |TrimStart(u)| <= |u|
    ensures TrimStart(u)[|TrimStart(u)| - 1] == u[|u| - 1]
  {
    TrimStartEmpty(u);
    TrimStartSlice(u);
  }
}
