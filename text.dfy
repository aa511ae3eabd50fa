/** The string operations the source applies: `toLowerCase`, `includes`, `trim` and `split`. */
module Text {
  import opened Wrappers

  /** `toLowerCase` on one character, restricted to the ASCII letters. */
  function LowerChar(c: char): char {
    if 'A' <= c <= 'Z' then (c as int + 32) as char else c
  }

  /** `String.prototype.toLowerCase` over ASCII: upper-case letters become lower-case, nothing else moves. */
  function ToLower(s: string): (r: string)
    ensures |r| == |s|
    ensures forall i | 0 <= i < |r| :: !('A' <= r[i] <= 'Z')
    ensures forall i | 0 <= i < |r| :: if 'A' <= s[i] <= 'Z' then r[i] as int == s[i] as int + 32 else r[i] == s[i]
  {
    seq(|s|, i requires 0 <= i < |s| => LowerChar(s[i]))
  }

  /** Lower-casing twice is lower-casing once. */
  lemma ToLowerIdempotent(s: string)
    ensures ToLower(ToLower(s)) == ToLower(s)
  {
  }

  /** `String.prototype.includes`: `sub` occurs in `s` at some position. */
  predicate Contains(s: string, sub: string) {
    exists i | 0 <= i <= |s| - |sub| :: OccursAt(s, sub, i)
  }

  /** `sub` is the part of `s` that starts at position `i`. */
  predicate OccursAt(s: string, sub: string, i: int)
    requires 0 <= i <= |s| - |sub|
  {
    s[i..i + |sub|] == sub
  }

  /** Every string includes the empty string, so an empty search term rules nothing out. */
  lemma ContainsEmpty(s: string)
    ensures Contains(s, "")
  {
    assert OccursAt(s, "", 0);
  }

  /** The characters JavaScript's `trim` removes: WhiteSpace and LineTerminator of ECMAScript. */
  predicate IsJsWhitespace(c: char) {
    c == ' ' || c == '\t' || c == '\n' || c == '\r' || c == '\U{000B}' || c == '\U{000C}'
    || c == '\U{00A0}' || c == '\U{FEFF}' || c == '\U{1680}' || ('\U{2000}' <= c <= '\U{200A}')
    || c == '\U{2028}' || c == '\U{2029}' || c == '\U{202F}' || c == '\U{205F}' || c == '\U{3000}'
  }

  function TrimStart(s: string): (r: string)
    ensures |r| <= |s| && r == s[|s| - |r|..]
    ensures r != "" ==> !IsJsWhitespace(r[0])
    ensures forall k | 0 <= k < |s| - |r| :: IsJsWhitespace(s[k])
  {
    if s != "" && IsJsWhitespace(s[0]) then TrimStart(s[1..]) else s
  }

  function TrimEnd(s: string): (r: string)
    ensures |r| <= |s| && r == s[..|r|]
    ensures r != "" ==> !IsJsWhitespace(r[|r| - 1])
    ensures forall k | |r| <= k < |s| :: IsJsWhitespace(s[k])
  {
    if s != "" && IsJsWhitespace(s[|s| - 1]) then TrimEnd(s[..|s| - 1]) else s
  }

  /** `String.prototype.trim`. */
  function Trim(s: string): (r: string)
    ensures r != "" ==> !IsJsWhitespace(r[0]) && !IsJsWhitespace(r[|r| - 1])
    ensures exists i, j | 0 <= i <= j <= |s| ::
              && r == s[i..j]
              && (forall k | 0 <= k < i :: IsJsWhitespace(s[k]))
              && (forall k | j <= k < |s| :: IsJsWhitespace(s[k]))
  {
    var t := TrimStart(s);
    var r := TrimEnd(t);
    var i := |s| - |t|;
    assert r == s[i..i + |r|];
    r
  }

  /** `!s.trim()`: the string is empty or made of whitespace only. */
  predicate IsBlank(s: string) {
    Trim(s) == ""
  }

  /** A string trims to nothing exactly when each of its characters is whitespace. */
  lemma {:induction false} BlankIffAllWhitespace(s: string)
    ensures IsBlank(s) <==> forall i | 0 <= i < |s| :: IsJsWhitespace(s[i])
  {
    if s != "" && IsJsWhitespace(s[0]) {
      BlankIffAllWhitespace(s[1..]);
      assert forall i | 1 <= i < |s| :: s[i] == s[1..][i - 1];
    } else if s != "" {
      var t := TrimStart(s);
      assert t == s;
      assert TrimEnd(t) != "" by {
        TrimEndKeepsFirst(t);
      }
    }
  }

  /** Trimming the end of a string that starts with a non-space keeps that character. */
  lemma {:induction false} TrimEndKeepsFirst(t: string)
    requires t != "" && !IsJsWhitespace(t[0])
    ensures TrimEnd(t) != ""
  {
    if IsJsWhitespace(t[|t| - 1]) {
      TrimEndKeepsFirst(t[..|t| - 1]);
    }
  }

  /** `err.response?.data?.error || fallback`: the message the server answered with, or the
      handler's own when there was none or it was empty. */
  function FailureMessage(serverError: Option<string>, fallback: string): (r: string)
    ensures serverError.Some? && serverError.value != "" ==> r == serverError.value
    ensures !(serverError.Some? && serverError.value != "") ==> r == fallback
  {
    if serverError.Some? && serverError.value != "" then serverError.value else fallback
  }

  /** `Array.prototype.join(sep)`: the pieces with one separator between neighbours. */
  function Join(pieces: seq<string>, sep: char): string
    decreases |pieces|
  {
    if pieces == [] then ""
    else if |pieces| == 1 then pieces[0]
    else pieces[0] + [sep] + Join(pieces[1..], sep)
  }

  /** `String.prototype.split(sep)` for a one-character separator: the pieces between separators.
      The pieces hold no separator and join back into `s`, which determines them. */
  function Split(s: string, sep: char): (r: seq<string>)
    ensures |r| >= 1
    ensures forall i | 0 <= i < |r| :: sep !in r[i]
    ensures Join(r, sep) == s
    ensures sep !in s ==> r == [s]
  {
    if s == "" then [""]
    else if s[0] == sep then
      var rest := Split(s[1..], sep);
      assert ([""] + rest)[1..] == rest;
      [""] + rest
    else
      var rest := Split(s[1..], sep);
      var r := [[s[0]] + rest[0]] + rest[1..];
      assert r[1..] == rest[1..];
      assert [s[0]] + s[1..] == s;
      r
  }

  /** A separator-free word followed by the separator is split off as the first piece. */
  lemma {:induction false} SplitAfterWord(w: string, t: string, sep: char)
    requires sep !in w
    ensures Split(w + [sep] + t, sep) == [w] + Split(t, sep)
  {
    var s := w + [sep] + t;
    if w == "" {
      assert s == [sep] + t;
      assert s[1..] == t;
    } else {
      assert s[0] == w[0];
      assert s[1..] == w[1..] + [sep] + t;
      SplitAfterWord(w[1..], t, sep);
      assert [w[0]] + w[1..] == w;
    }
  }
}
