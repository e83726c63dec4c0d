/**
 * The string primitives the screens rely on: JavaScript's `trim`, `toLowerCase`
 * (restricted to ASCII), `includes`, and `length` counted in UTF-16 code units.
 */
module Text {

  /** The characters JavaScript's `String.prototype.trim` strips:
      WhiteSpace and LineTerminator code points. */
  predicate IsWhitespace(c: char) {
    || c == ' ' || c == '\t' || c == '\n' || c == '\r'
    || c == '\U{000B}' || c == '\U{000C}' || c == '\U{00A0}' || c == '\U{1680}'
    || ('\U{2000}' <= c <= '\U{200A}')
    || c == '\U{2028}' || c == '\U{2029}' || c == '\U{202F}' || c == '\U{205F}'
    || c == '\U{3000}' || c == '\U{FEFF}'
  }

  /** `s` with its leading whitespace removed: a suffix of `s`. */
  function TrimStart(s: string): (r: string)
    ensures |r| <= |s| && r == s[|s| - |r|..]
    ensures r == [] || !IsWhitespace(r[0])
    ensures forall i :: 0 <= i < |s| - |r| ==> IsWhitespace(s[i])
  {
    if s != [] && IsWhitespace(s[0]) then TrimStart(s[1..]) else s
  }

  /** `s` with its trailing whitespace removed: a prefix of `s`. */
  function TrimEnd(s: string): (r: string)
    ensures |r| <= |s| && r == s[..|r|]
    ensures r == [] || !IsWhitespace(r[|r| - 1])
    ensures forall i :: |r| <= i < |s| ==> IsWhitespace(s[i])
  {
    if s != [] && IsWhitespace(s[|s| - 1]) then TrimEnd(s[..|s| - 1]) else s
  }

  /** JavaScript's `s.trim()`. */
  function Trim(s: string): string {
    TrimEnd(TrimStart(s))
  }

  /** `s.trim()` is the empty string, i.e. falsy. */
  predicate IsBlank(s: string) {
    Trim(s) == []
  }

  /** A string trims to nothing exactly when every character of it is whitespace. */
  lemma BlankIffAllWhitespace(s: string)
    ensures IsBlank(s) <==> forall i :: 0 <= i < |s| ==> IsWhitespace(s[i])
  {
    var t := TrimStart(s);
    if IsBlank(s) {
      assert t == [];
    }
    if forall i :: 0 <= i < |s| ==> IsWhitespace(s[i]) {
      if t != [] {
        assert t[0] == s[|s| - |t|];
      }
    }
  }

  /** Trimming leaves no whitespace at either end, and never adds characters. */
  lemma TrimHasNoPadding(s: string)
    ensures |Trim(s)| <= |s|
    ensures Trim(s) == [] || (!IsWhitespace(Trim(s)[0]) && !IsWhitespace(Trim(s)[|Trim(s)| - 1]))
  {
    var t := TrimStart(s);
    var r := TrimEnd(t);
    if r != [] {
      assert r[0] == t[0];
    }
  }

  /** Whitespace added around a string is removed again by `trim`. */
  lemma {:induction false} TrimIgnoresPadding(pre: string, s: string, post: string)
    requires forall i :: 0 <= i < |pre| ==> IsWhitespace(pre[i])
    requires forall i :: 0 <= i < |post| ==> IsWhitespace(post[i])
    ensures Trim(pre + s + post) == Trim(s)
  {
    var padded := pre + s + post;
    assert padded == pre + (s + post);
    StartSkipsWhitespace(pre, s + post);
    assert Trim(padded) == TrimEnd(TrimStart(s + post));
    var t := TrimStart(s);
    if t == [] {
      BlankIffAllWhitespace(s);
      StartSkipsWhitespace(s, post);
      AllWhitespaceTrimsStartToEmpty(post);
      assert TrimStart(s + post) == [];
    } else {
      TrimStartOfConcat(s, post);
      EndSkipsWhitespace(t, post);
    }
  }

  /** A string made only of whitespace loses all of it to `TrimStart`. */
  lemma AllWhitespaceTrimsStartToEmpty(s: string)
    requires forall i :: 0 <= i < |s| ==> IsWhitespace(s[i])
    ensures TrimStart(s) == []
  {
  }

  /** Appending text never makes a non-blank string blank. */
  lemma NotBlankAfterAppend(s: string, t: string)
    requires !IsBlank(s)
    ensures !IsBlank(s + t)
  {
    BlankIffAllWhitespace(s);
    BlankIffAllWhitespace(s + t);
    var i :| 0 <= i < |s| && !IsWhitespace(s[i]);
    assert (s + t)[i] == s[i];
  }

  /** A whitespace prefix is skipped by `TrimStart`. */
  lemma {:induction false} StartSkipsWhitespace(pre: string, s: string)
    requires forall i :: 0 <= i < |pre| ==> IsWhitespace(pre[i])
    ensures TrimStart(pre + s) == TrimStart(s)
  {
    if pre != [] {
      assert (pre + s)[1..] == pre[1..] + s;
      StartSkipsWhitespace(pre[1..], s);
    } else {
      assert pre + s == s;
    }
  }

  /** A whitespace suffix is skipped by `TrimEnd`. */
  lemma {:induction false} EndSkipsWhitespace(s: string, post: string)
    requires forall i :: 0 <= i < |post| ==> IsWhitespace(post[i])
    ensures TrimEnd(s + post) == TrimEnd(s)
  {
    if post != [] {
      var shorter := post[..|post| - 1];
      assert (s + post)[..|s + post| - 1] == s + shorter;
      EndSkipsWhitespace(s, shorter);
    } else {
      assert s + post == s;
    }
  }

  /** When `s` has some non-whitespace character, trimming the start of `s + post`
      only trims the start of `s`. */
  lemma {:induction false} TrimStartOfConcat(s: string, post: string)
    ensures TrimStart(s) != [] ==> TrimStart(s + post) == TrimStart(s) + post
  {
    if s != [] && IsWhitespace(s[0]) {
      assert (s + post)[1..] == s[1..] + post;
      TrimStartOfConcat(s[1..], post);
    }
  }

  /** ASCII `toLowerCase` of one character. */
  function LowerChar(c: char): (r: char)
    ensures 'A' <= c <= 'Z' ==> r as int == c as int + 32
    ensures !('A' <= c <= 'Z') ==> r == c
  {
    if 'A' <= c <= 'Z' then (c as int + 32) as char else c
  }

  /** `s.toLowerCase()` on ASCII letters; other characters are kept. */
  function Lower(s: string): (r: string)
    ensures |r| == |s|
    ensures forall i :: 0 <= i < |s| ==> r[i] == LowerChar(s[i])
  {
    if s == [] then [] else [LowerChar(s[0])] + Lower(s[1..])
  }

  /** `haystack.includes(needle)`: `needle` occurs as a contiguous piece of `haystack`. */
  predicate Includes(haystack: string, needle: string) {
    exists i :: 0 <= i <= |haystack| - |needle| && needle <= haystack[i..]
  }

  /** The empty string is included in every string. */
  lemma EmptyIsIncluded(haystack: string)
    ensures Includes(haystack, [])
  {
    assert [] <= haystack[0..];
  }

  /** `s.length` in JavaScript: UTF-16 code units, so a character outside the
      Basic Multilingual Plane counts twice. */
  function Utf16Length(s: string): (n: nat)
    ensures |s| <= n <= 2 * |s|
    ensures (forall i :: 0 <= i < |s| ==> s[i] as int <= 0xFFFF) ==> n == |s|
  {
    if s == [] then 0
    else (if s[0] as int > 0xFFFF then 2 else 1) + Utf16Length(s[1..])
  }
}
