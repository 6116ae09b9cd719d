/**
 * The ECMAScript string and array operations the bot's scripts chain together:
 * `trim`, `toLowerCase`, `indexOf` (on strings and on arrays), `split` on one
 * character, and `replace` of the first occurrence of a pattern, with the
 * `$` substitution patterns of the replacement string.
 */
module JsString {

  /** WhiteSpace and LineTerminator characters, the ones `String.prototype.trim` removes. */
  predicate IsWhite(c: char) {
    || c == '\t' || c == '\n' || c == '\U{B}' || c == '\U{C}' || c == '\r' || c == ' '
    || c == '\U{A0}' || c == '\U{1680}' || ('\U{2000}' <= c <= '\U{200A}')
    || c == '\U{2028}' || c == '\U{2029}' || c == '\U{202F}' || c == '\U{205F}'
    || c == '\U{3000}' || c == '\U{FEFF}'
  }

  /** Drops the leading white space: what is left is a suffix that starts with a non-white character. */
  function TrimStart(s: string): (r: string)
    ensures |r| <= |s| && r == s[|s| - |r|..]
    ensures r == [] || !IsWhite(r[0])
    ensures forall i :: 0 <= i < |s| - |r| ==> IsWhite(s[i])
  {
    if s != [] && IsWhite(s[0]) then TrimStart(s[1..]) else s
  }

  /** Drops the trailing white space: what is left is a prefix that ends with a non-white character. */
  function TrimEnd(s: string): (r: string)
    ensures |r| <= |s| && r == s[..|r|]
    ensures r == [] || !IsWhite(r[|r| - 1])
    ensures forall i :: |r| <= i < |s| ==> IsWhite(s[i])
  {
    if s != [] && IsWhite(s[|s| - 1]) then TrimEnd(s[..|s| - 1]) else s
  }

  /** `s.trim()`: the white space around the text dropped, so neither end of the result is white. */
  function Trim(s: string): (r: string)
    ensures |r| <= |s|
    ensures r == [] || (!IsWhite(r[0]) && !IsWhite(r[|r| - 1]))
  {
    var t := TrimStart(s);
    var trimmed := TrimEnd(t);
    assert trimmed != [] ==> trimmed[0] == t[0];
    trimmed
  }

  /** `trim` keeps an infix of the text and drops only white space on either side of it. */
  lemma TrimDropsOnlyWhite(s: string)
    ensures var k, r := |s| - |TrimStart(s)|, Trim(s);
            && k + |r| <= |s| && r == s[k..k + |r|]
            && (forall i :: 0 <= i < k ==> IsWhite(s[i]))
            && (forall i :: k + |r| <= i < |s| ==> IsWhite(s[i]))
  {
    var t := TrimStart(s);
    var k := |s| - |t|;
    var r := TrimEnd(t);
    assert t == s[k..];
    assert r == t[..|r|];
    forall i | k + |r| <= i < |s|
      ensures IsWhite(s[i])
    {
      assert s[i] == t[i - k];
    }
  }

  /** `trim` gives the empty string exactly when the whole text is white space. */
  lemma TrimEmptyIffWhite(s: string)
    ensures Trim(s) == [] <==> forall i :: 0 <= i < |s| ==> IsWhite(s[i])
  {
    TrimDropsOnlyWhite(s);
    var t := TrimStart(s);
    var r := TrimEnd(t);
    assert r != [] ==> r[0] == t[0] && t[0] == s[|s| - |t|];
  }

  /** A text that neither starts nor ends with white space is its own trim. */
  lemma TrimKeepsTrimmed(s: string)
    requires s == [] || (!IsWhite(s[0]) && !IsWhite(s[|s| - 1]))
    ensures Trim(s) == s
  {
  }

  /** Lower case of one character; only the ASCII letters change. */
  function LowerChar(c: char): char {
    if 'A' <= c <= 'Z' then (c as int + 32) as char else c
  }

  /** A lowered character is not an upper-case letter, and lowering it again changes nothing. */
  lemma LowerCharIsLower(c: char)
    ensures !('A' <= LowerChar(c) <= 'Z')
    ensures LowerChar(LowerChar(c)) == LowerChar(c)
  {
  }

  /** `s.toLowerCase()`, character by character; no upper-case letter is left. */
  function ToLower(s: string): (r: string)
    ensures |r| == |s|
    ensures forall i :: 0 <= i < |s| ==> r[i] == LowerChar(s[i])
    ensures forall i :: 0 <= i < |r| ==> !('A' <= r[i] <= 'Z')
  {
    var r := seq(|s|, i requires 0 <= i < |s| => LowerChar(s[i]));
    assert forall i :: 0 <= i < |r| ==> !('A' <= r[i] <= 'Z') by {
      forall i | 0 <= i < |r| ensures !('A' <= r[i] <= 'Z') {
        LowerCharIsLower(s[i]);
      }
    }
    r
  }

  /** Lowering commutes with taking a prefix. */
  lemma ToLowerPrefix(s: string, k: nat)
    requires k <= |s|
    ensures ToLower(s)[..k] == ToLower(s[..k])
  {
  }

  /** A text without upper-case ASCII letters is its own lower case. */
  lemma ToLowerNoUpper(s: string)
    requires forall i :: 0 <= i < |s| ==> !('A' <= s[i] <= 'Z')
    ensures ToLower(s) == s
  {
  }

  /** `pat` occurs in `s` starting at position `k`. */
  predicate OccursAt(s: string, pat: string, k: int) {
    0 <= k && k + |pat| <= |s| && s[k..k + |pat|] == pat
  }

  /** A position whose character is not the first of `pat` is not an occurrence of `pat`. */
  lemma NotOccursAt(s: string, pat: string, k: int)
    requires 0 <= k < |s| && pat != [] && s[k] != pat[0]
    ensures !OccursAt(s, pat, k)
  {
    if k + |pat| <= |s| {
      assert s[k..k + |pat|][0] == s[k];
    }
  }

  /**
   * `s.indexOf(pat, k)` for `k` within the string: the first position at or
   * after `k` where `pat` occurs, or -1. (JavaScript clamps a `k` past the
   * end to the length; `IndexOf` only starts it at 0.)
   */
  function IndexOfFrom(s: string, pat: string, k: nat): (i: int)
    ensures i == -1 || (k <= i && OccursAt(s, pat, i))
    ensures forall j :: k <= j && (i == -1 || j < i) ==> !OccursAt(s, pat, j)
    decreases |s| - k
  {
    if k + |pat| > |s| then -1
    else if s[k..k + |pat|] == pat then k
    else IndexOfFrom(s, pat, k + 1)
  }

  /** `s.indexOf(pat)`: the first position where `pat` occurs, or -1 when it does not occur. */
  function IndexOf(s: string, pat: string): (i: int)
    ensures i == -1 || OccursAt(s, pat, i)
    ensures forall j :: 0 <= j && (i == -1 || j < i) ==> !OccursAt(s, pat, j)
  {
    IndexOfFrom(s, pat, 0)
  }

  /** `xs.indexOf(x)` on an array: the first index holding `x`, or -1. */
  function SeqIndexOf<T(==)>(xs: seq<T>, x: T): (i: int)
    ensures -1 <= i < |xs|
    ensures i == -1 <==> x !in xs
    ensures 0 <= i ==> xs[i] == x && x !in xs[..i]
  {
    if xs == [] then -1
    else if xs[0] == x then 0
    else
      var j := SeqIndexOf(xs[1..], x);
      assert xs[1..] == xs[1..][..|xs| - 1];
      if j == -1 then -1
      else
        assert xs[..j + 1] == [xs[0]] + xs[1..][..j];
        j + 1
  }

  /**
   * `s.split(sep)` for a one-character separator: the pieces between the
   * separators, never none. The first piece is the prefix of `s` up to the
   * first separator.
   */
  function Split(s: string, sep: char): (parts: seq<string>)
    ensures |parts| >= 1
    ensures forall p :: p in parts ==> sep !in p
    ensures |parts[0]| <= |s| && parts[0] == s[..|parts[0]|]
    ensures |parts[0]| < |s| ==> s[|parts[0]|] == sep
  {
    if s == [] then [""]
    else
      var rest := Split(s[1..], sep);
      if s[0] == sep then [""] + rest
      else [[s[0]] + rest[0]] + rest[1..]
  }

  /** A text without the separator is one piece. */
  lemma {:induction false} SplitNone(a: string, sep: char)
    requires sep !in a
    ensures Split(a, sep) == [a]
    decreases |a|
  {
    if a != [] {
      assert sep !in a[1..];
      SplitNone(a[1..], sep);
      assert [a[0]] + a[1..] == a;
    }
  }

  /** The first separator ends the first piece; the rest is split on its own. */
  lemma {:induction false} SplitFirst(a: string, b: string, sep: char)
    requires sep !in a
    ensures Split(a + [sep] + b, sep) == [a] + Split(b, sep)
    decreases |a|
  {
    var s := a + [sep] + b;
    if a == [] {
      assert s[0] == sep && s[1..] == b;
    } else {
      assert sep !in a[1..];
      SplitFirst(a[1..], b, sep);
      assert s[0] == a[0] && s[1..] == a[1..] + [sep] + b;
      assert [a[0]] + a[1..] == a;
    }
  }

  /** `parts.join(sep)`: the reference against which `Split` is checked. */
  function Join(parts: seq<string>, sep: char): string {
    if parts == [] then ""
    else if |parts| == 1 then parts[0]
    else parts[0] + [sep] + Join(parts[1..], sep)
  }

  /** Splitting and joining back with the same separator gives the original string. */
  lemma {:induction false} JoinSplit(s: string, sep: char)
    ensures Join(Split(s, sep), sep) == s
    decreases |s|
  {
    if s != [] {
      JoinSplit(s[1..], sep);
      var rest := Split(s[1..], sep);
      if s[0] != sep {
        if |rest| == 1 {
          assert Join(Split(s, sep), sep) == [s[0]] + rest[0];
        } else {
          assert Split(s, sep)[1..] == rest[1..];
          assert Join(rest, sep) == rest[0] + [sep] + Join(rest[1..], sep);
        }
      }
    }
  }

  /** Joining pieces free of the separator and splitting again gives the pieces back. */
  lemma {:induction false} SplitJoin(parts: seq<string>, sep: char)
    requires |parts| >= 1
    requires forall p :: p in parts ==> sep !in p
    ensures Split(Join(parts, sep), sep) == parts
    decreases |Join(parts, sep)|, |parts|
  {
    if parts[0] != [] {
      var p := parts[0];
      var tail := [p[1..]] + parts[1..];
      assert p == [p[0]] + p[1..];
      assert sep !in p[1..] by { assert p in parts; }
      assert forall q :: q in parts[1..] ==> q in parts;
      assert Join(tail, sep) == Join(parts, sep)[1..] by {
        if |parts| == 1 {
        } else {
          assert Join(parts, sep) == [p[0]] + (p[1..] + [sep] + Join(parts[1..], sep));
        }
      }
      SplitJoin(tail, sep);
      var joined := Join(parts, sep);
      assert joined == [p[0]] + Join(tail, sep);
      assert joined[1..] == Join(tail, sep);
      assert p[0] != sep by { assert p in parts; }
      assert Split(joined, sep) == [[p[0]] + tail[0]] + tail[1..];
      assert [p[0]] + tail[0] == p;
      assert tail[1..] == parts[1..];
    } else if |parts| > 1 {
      SplitJoin(parts[1..], sep);
      assert Join(parts, sep) == [sep] + Join(parts[1..], sep);
    }
  }

  /** `s.split(" ")[0]`: the first space-separated word of `s`. */
  function FirstWord(s: string): string {
    Split(s, ' ')[0]
  }

  /**
   * GetSubstitution of ECMAScript for a pattern without capture groups:
   * `$$` gives `$`, `$&` the matched text, `` $` `` the text before the match,
   * `$'` the text after it; every other `$` stands for itself.
   */
  function Expand(repl: string, matched: string, before: string, after: string): (r: string)
    ensures '$' !in repl ==> r == repl
    decreases |repl|
  {
    if repl == [] then ""
    else if repl[0] == '$' && |repl| >= 2 && repl[1] == '$' then "$" + Expand(repl[2..], matched, before, after)
    else if repl[0] == '$' && |repl| >= 2 && repl[1] == '&' then matched + Expand(repl[2..], matched, before, after)
    else if repl[0] == '$' && |repl| >= 2 && repl[1] == '`' then before + Expand(repl[2..], matched, before, after)
    else if repl[0] == '$' && |repl| >= 2 && repl[1] == '\'' then after + Expand(repl[2..], matched, before, after)
    else [repl[0]] + Expand(repl[1..], matched, before, after)
  }

  /**
   * Expansion works left to right, so a replacement splits into two parts
   * expanded on their own wherever the first part does not end in a `$`
   * that could pair with the next character.
   */
  lemma {:induction false} ExpandAppend(a: string, b: string, matched: string, before: string, after: string)
    requires a == [] || a[|a| - 1] != '$'
    ensures Expand(a + b, matched, before, after) == Expand(a, matched, before, after) + Expand(b, matched, before, after)
    decreases |a|
  {
    if a != [] {
      var ab := a + b;
      assert ab[0] == a[0];
      if a[0] == '$' && |a| >= 2 && (a[1] == '$' || a[1] == '&' || a[1] == '`' || a[1] == '\'') {
        assert ab[1] == a[1];
        assert ab[2..] == a[2..] + b;
        ExpandAppend(a[2..], b, matched, before, after);
      } else {
        assert a[0] == '$' ==> |a| >= 2;
        assert |a| >= 2 ==> ab[1] == a[1];
        assert ab[1..] == a[1..] + b;
        ExpandAppend(a[1..], b, matched, before, after);
      }
    } else {
      assert a + b == b;
    }
  }

  /** The four substitution patterns on their own: `$$`, `$&`, `` $` `` and `$'`. */
  lemma ExpandPatterns(matched: string, before: string, after: string)
    ensures Expand("$$", matched, before, after) == "$"
    ensures Expand("$&", matched, before, after) == matched
    ensures Expand("$`", matched, before, after) == before
    ensures Expand("$'", matched, before, after) == after
  {
  }

  /** `s.replace(pat, repl)` with a string (or literal-only regular expression) pattern: only the first occurrence is replaced. */
  function ReplaceFirst(s: string, pat: string, repl: string): (r: string)
    ensures IndexOf(s, pat) == -1 ==> r == s
    // the text before the first occurrence and the text after it are kept; the occurrence becomes the expansion
    ensures IndexOf(s, pat) >= 0 ==>
              var i, tail := IndexOf(s, pat), |s| - IndexOf(s, pat) - |pat|;
              && |r| == i + |Expand(repl, pat, s[..i], s[i + |pat|..])| + tail
              && r[..i] == s[..i]
              && r[|r| - tail..] == s[i + |pat|..]
              && r[i..|r| - tail] == Expand(repl, pat, s[..i], s[i + |pat|..])
  {
    var i := IndexOf(s, pat);
    if i < 0 then s
    else s[..i] + Expand(repl, pat, s[..i], s[i + |pat|..]) + s[i + |pat|..]
  }

  /**
   * Filling a template `prefix + pat + suffix` whose prefix does not hold the
   * first character of the placeholder replaces exactly that placeholder.
   */
  lemma FillTemplate(prefix: string, pat: string, suffix: string, repl: string)
    requires pat != [] && pat[0] !in prefix
    ensures ReplaceFirst(prefix + pat + suffix, pat, repl) == prefix + Expand(repl, pat, prefix, suffix) + suffix
  {
    var s := prefix + pat + suffix;
    assert OccursAt(s, pat, |prefix|);
    forall j | 0 <= j < |prefix|
      ensures !OccursAt(s, pat, j)
    {
      assert s[j] == prefix[j] && prefix[j] != pat[0];
      if j + |pat| <= |s| {
        assert s[j..j + |pat|][0] == s[j];
      }
    }
    var i := IndexOf(s, pat);
    assert i == |prefix|;
    assert s[..i] == prefix;
    assert s[i + |pat|..] == suffix;
  }

  /** Removing the first occurrence of `pat` (replacing it with the empty string). */
  lemma RemoveFirst(s: string, pat: string)
    requires IndexOf(s, pat) >= 0
    ensures ReplaceFirst(s, pat, "") == s[..IndexOf(s, pat)] + s[IndexOf(s, pat) + |pat|..]
  {
  }
}
