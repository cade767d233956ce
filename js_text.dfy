/**
 * The JavaScript values and the built-in string operations the slide
 * sanitiser relies on: `typeof x === 'string'`, `String.prototype.trim`,
 * `String.prototype.toLowerCase` and `String.prototype.startsWith`.
 * Strings are sequences of Unicode scalar values.
 */
module JsText {

  /** A JavaScript value as far as the core inspects it: only strings are told apart. */
  datatype JsValue = Undefined | Null | Str(s: string) | Other

  /** ECMAScript WhiteSpace and LineTerminator code points: what `trim` strips. */
  predicate IsJsSpace(c: char) {
    || c == '\t' || c == '\n' || c == '\U{000B}' || c == '\U{000C}' || c == '\r' || c == ' '
    || c == '\U{00A0}' || c == '\U{1680}' || ('\U{2000}' <= c <= '\U{200A}')
    || c == '\U{2028}' || c == '\U{2029}' || c == '\U{202F}' || c == '\U{205F}'
    || c == '\U{3000}' || c == '\U{FEFF}'
  }

  predicate AllSpace(s: string) {
    forall i :: 0 <= i < |s| ==> IsJsSpace(s[i])
  }

  /** Neither end of `s` is whitespace: what `trim` produces. */
  predicate IsTrimmed(s: string) {
    s == [] || (!IsJsSpace(s[0]) && !IsJsSpace(s[|s| - 1]))
  }

  /** Drops leading whitespace (see TrimStartSplit). */
  function TrimStart(s: string): (r: string)
    ensures |r| <= |s|
    ensures r == [] || !IsJsSpace(r[0])
  {
    if s != [] && IsJsSpace(s[0]) then TrimStart(s[1..]) else s
  }

  /** Drops trailing whitespace (see TrimEndSplit). */
  function TrimEnd(s: string): (r: string)
    ensures |r| <= |s|
    ensures r == [] || !IsJsSpace(r[|r| - 1])
    ensures r == [] || r[0] == s[0]
  {
    if s != [] && IsJsSpace(s[|s| - 1]) then TrimEnd(s[..|s| - 1]) else s
  }

  /** `s.trim()`: no longer than `s`, and with no whitespace at either end. */
  function Trim(s: string): (r: string)
    ensures |r| <= |s|
    ensures IsTrimmed(r)
  {
    TrimEnd(TrimStart(s))
  }

  /** TrimStart removes a whitespace prefix and keeps the rest. */
  lemma {:induction false} TrimStartSplit(s: string)
    ensures var r := TrimStart(s); r == s[|s| - |r|..] && AllSpace(s[..|s| - |r|])
  {
    if s != [] && IsJsSpace(s[0]) {
      TrimStartSplit(s[1..]);
      var r := TrimStart(s);
      assert s[1..][|s| - 1 - |r|..] == s[|s| - |r|..];
      assert forall i :: 1 <= i < |s| - |r| ==> s[i] == s[1..][..|s| - 1 - |r|][i - 1];
    }
  }

  /** TrimEnd removes a whitespace suffix and keeps the rest. */
  lemma {:induction false} TrimEndSplit(s: string)
    ensures var r := TrimEnd(s); r == s[..|r|] && AllSpace(s[|r|..])
  {
    if s != [] && IsJsSpace(s[|s| - 1]) {
      var p := s[..|s| - 1];
      TrimEndSplit(p);
      var r := TrimEnd(s);
      assert p[..|r|] == s[..|r|];
      assert forall i :: |r| <= i < |s| - 1 ==> s[i] == p[|r|..][i - |r|];
    }
  }

  /** `s.trim()` is empty exactly when `s` is all whitespace (or empty). */
  lemma TrimBlank(s: string)
    ensures Trim(s) == [] <==> AllSpace(s)
  {
    var t := TrimStart(s);
    TrimStartSplit(s);
    TrimEndSplit(t);
    if t != [] {
      assert t[0] == s[|s| - |t|];
    } else {
      assert s == s[..|s| - |t|];
    }
  }

  predicate IsUpper(c: char) {
    'A' <= c <= 'Z'
  }

  /** `c` and `d` are the same character, or the two cases of one ASCII letter. */
  predicate SameUpToCase(c: char, d: char) {
    || c == d
    || (IsUpper(c) && d as int == c as int + 32)
    || (IsUpper(d) && c as int == d as int + 32)
  }

  /** `toLowerCase` on the ASCII letters: an upper-case letter becomes its lower-case partner, every other character is kept. */
  function LowerChar(c: char): (r: char)
    ensures !IsUpper(r)
    ensures !IsUpper(c) ==> r == c
    ensures IsUpper(c) ==> r as int - 'a' as int == c as int - 'A' as int
    ensures ('a' <= r <= 'z') <==> ('a' <= c <= 'z' || IsUpper(c))
  {
    if 'A' <= c <= 'Z' then (c as int + 32) as char else c
  }

  /** Two characters lower-case alike exactly when they differ at most in ASCII case. */
  lemma LowerCharSame(c: char, d: char)
    ensures LowerChar(c) == LowerChar(d) <==> SameUpToCase(c, d)
  {
  }

  /** `s.toLowerCase()` as far as the model goes: no upper-case ASCII letter is left, and each character keeps its letter. */
  function ToLower(s: string): (r: string)
    ensures |r| == |s|
    ensures forall i :: 0 <= i < |r| ==> !IsUpper(r[i]) && SameUpToCase(s[i], r[i])
  {
    seq(|s|, i requires 0 <= i < |s| => LowerChar(s[i]))
  }

  /**
   * The key of a name: two texts lower-case to the same string exactly when
   * they have the same length and differ at most in the case of ASCII letters.
   */
  lemma ToLowerSame(s: string, t: string)
    ensures ToLower(s) == ToLower(t) <==>
      |s| == |t| && forall i :: 0 <= i < |s| ==> SameUpToCase(s[i], t[i])
  {
    if |s| == |t| {
      forall i | 0 <= i < |s| ensures ToLower(s)[i] == ToLower(t)[i] <==> SameUpToCase(s[i], t[i]) {
        LowerCharSame(s[i], t[i]);
      }
      if forall i :: 0 <= i < |s| ==> SameUpToCase(s[i], t[i]) {
        assert forall i :: 0 <= i < |s| ==> ToLower(s)[i] == ToLower(t)[i];
      }
    }
  }

  /** Lower-casing twice is lower-casing once. */
  lemma ToLowerIdempotent(s: string)
    ensures ToLower(ToLower(s)) == ToLower(s)
  {
    assert forall i :: 0 <= i < |s| ==> ToLower(ToLower(s))[i] == ToLower(s)[i];
  }

  /** `s.startsWith(p)`: the first `|p|` characters of `s` are those of `p`. */
  predicate StartsWith(s: string, p: string)
    ensures StartsWith(s, p) <==> |p| <= |s| && forall i :: 0 <= i < |p| ==> s[i] == p[i]
  {
    p <= s
  }

  /**
   * A case-insensitive match of `p` at the start of `s`, as a regular
   * expression with the `i` flag does: each of the first `|p|` characters of
   * `s` is the character of `p` or its other ASCII case.
   */
  predicate StartsWithNoCase(s: string, p: string)
    ensures StartsWithNoCase(s, p) <==>
      |p| <= |s| && forall i :: 0 <= i < |p| ==> SameUpToCase(s[i], p[i])
  {
    |p| <= |s| && (ToLowerSame(s[..|p|], p); ToLower(s[..|p|]) == ToLower(p))
  }

  /** Trim removes exactly the whitespace padding around a trimmed core. */
  lemma {:induction false} TrimPadding(pre: string, t: string, post: string)
    requires AllSpace(pre) && AllSpace(post) && IsTrimmed(t)
    ensures Trim(pre + t + post) == t
  {
    if t == [] {
      assert pre + t + post == pre + post;
      assert AllSpace(pre + post);
      TrimBlank(pre + post);
    } else {
      assert pre + t + post == pre + (t + post);
      TrimStartPadding(pre, t + post);
      TrimEndPadding(t, post);
    }
  }

  lemma {:induction false} TrimStartPadding(pre: string, s: string)
    requires AllSpace(pre) && (s == [] || !IsJsSpace(s[0]))
    ensures TrimStart(pre + s) == s
  {
    if pre != [] {
      assert (pre + s)[1..] == pre[1..] + s;
      TrimStartPadding(pre[1..], s);
    } else {
      assert pre + s == s;
    }
  }

  lemma {:induction false} TrimEndPadding(s: string, post: string)
    requires AllSpace(post) && (s == [] || !IsJsSpace(s[|s| - 1]))
    ensures TrimEnd(s + post) == s
  {
    if post != [] {
      assert (s + post)[..|s + post| - 1] == s + post[..|post| - 1];
      TrimEndPadding(s, post[..|post| - 1]);
    } else {
      assert s + post == s;
    }
  }
}
