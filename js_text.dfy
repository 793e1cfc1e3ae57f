/**
 * The JavaScript string operations the helpers and validation rules are
 * built from: the `\s`, `\w` and digit character classes of regular
 * expressions, `trim`, `split`, `join` and ASCII lower-casing.
 *
 * A string is a sequence of characters; the model counts one character per
 * Unicode scalar value (see README, "Left out").
 */
module JsText {

  datatype Option<T> = None | Some(value: T)

  /** LineTerminator (ECMA-262 section 12.3): what `.` in a regular expression does not match. */
  predicate IsLineTerminator(c: char) {
    c == '\n' || c == '\r' || c == '\U{2028}' || c == '\U{2029}'
  }

  /** The `\s` class: WhiteSpace (section 12.2, with the Zs category spelled out) or LineTerminator. */
  predicate IsSpace(c: char) {
    || c == '\t' || c == '\U{000B}' || c == '\U{000C}' || c == ' ' || c == '\U{00A0}'
    || c == '\U{1680}' || ('\U{2000}' <= c <= '\U{200A}') || c == '\U{202F}' || c == '\U{205F}'
    || c == '\U{3000}' || c == '\U{FEFF}'
    || IsLineTerminator(c)
  }

  predicate IsAsciiDigit(c: char) { '0' <= c <= '9' }
  predicate IsAsciiLower(c: char) { 'a' <= c <= 'z' }
  predicate IsAsciiUpper(c: char) { 'A' <= c <= 'Z' }
  predicate IsAsciiLetter(c: char) { IsAsciiLower(c) || IsAsciiUpper(c) }

  /** The `\w` class (no `u` flag): ASCII letters, digits and `_`. */
  predicate IsWordChar(c: char) { IsAsciiLetter(c) || IsAsciiDigit(c) || c == '_' }

  predicate NoSpace(s: string) { forall i :: 0 <= i < |s| ==> !IsSpace(s[i]) }

  function LowerChar(c: char): (r: char)
    ensures IsAsciiUpper(c) ==> IsAsciiLower(r) && r as int == c as int + 32
    ensures !IsAsciiUpper(c) ==> r == c
  {
    if IsAsciiUpper(c) then (c as int + 32) as char else c
  }

  /** `toLowerCase` on strings whose only letters are ASCII. */
  function LowerAscii(s: string): (r: string)
    ensures |r| == |s|
    ensures forall i :: 0 <= i < |s| ==> r[i] == LowerChar(s[i])
  {
    if s == [] then [] else [LowerChar(s[0])] + LowerAscii(s[1..])
  }

  function TrimStart(s: string): (r: string)
    ensures |r| <= |s| && r == s[|s| - |r|..]
    ensures r == [] || !IsSpace(r[0])
    ensures forall i :: 0 <= i < |s| - |r| ==> IsSpace(s[i])
  {
    if s != [] && IsSpace(s[0]) then TrimStart(s[1..]) else s
  }

  function TrimEnd(s: string): (r: string)
    ensures |r| <= |s| && r == s[..|r|]
    ensures r == [] || !IsSpace(r[|r| - 1])
    ensures forall i :: |r| <= i < |s| ==> IsSpace(s[i])
  {
    if s != [] && IsSpace(s[|s| - 1]) then TrimEnd(s[..|s| - 1]) else s
  }

  /** `String.prototype.trim`. */
  function Trim(s: string): string {
    TrimEnd(TrimStart(s))
  }

  lemma TrimEmptyIffAllSpace(s: string)
    ensures Trim(s) == [] <==> forall i :: 0 <= i < |s| ==> IsSpace(s[i])
  {
  }

  /** The separators the source splits on: one character, or the pattern `/:|\s/`. */
  datatype Separator = OneChar(c: char) | ColonOrSpace

  predicate IsSeparator(sep: Separator, c: char) {
    match sep
    case OneChar(x) => c == x
    case ColonOrSpace => c == ':' || IsSpace(c)
  }

  predicate NoSeparator(s: string, sep: Separator) {
    forall i :: 0 <= i < |s| ==> !IsSeparator(sep, s[i])
  }

  /** `String.prototype.split` with a separator that always matches one character. */
  function Split(s: string, sep: Separator): (parts: seq<string>)
    ensures |parts| >= 1
    ensures forall k :: 0 <= k < |parts| ==> NoSeparator(parts[k], sep)
  {
    if s == [] then [[]]
    else
      var rest := Split(s[1..], sep);
      if IsSeparator(sep, s[0]) then [[]] + rest
      else [[s[0]] + rest[0]] + rest[1..]
  }

  /** `Array.prototype.join`. */
  function Join(parts: seq<string>, sep: string): string {
    if |parts| == 0 then []
    else if |parts| == 1 then parts[0]
    else parts[0] + sep + Join(parts[1..], sep)
  }

  /** Splitting on a character and joining on it again gives back the string. */
  lemma {:induction false} JoinSplit(s: string, c: char)
    ensures Join(Split(s, OneChar(c)), [c]) == s
  {
    if s != [] {
      var rest := Split(s[1..], OneChar(c));
      JoinSplit(s[1..], c);
      if s[0] != c {
        var parts := Split(s, OneChar(c));
        assert parts[1..] == rest[1..];
        if |rest| == 1 {
          assert s == [s[0]] + rest[0];
        } else {
          assert Join(rest, [c]) == rest[0] + [c] + Join(rest[1..], [c]);
          assert s == [s[0]] + rest[0] + [c] + Join(rest[1..], [c]);
        }
      }
    }
  }

  lemma {:induction false} SplitPrefix(p: string, t: string, sep: Separator)
    requires NoSeparator(p, sep)
    ensures Split(p + t, sep) == [p + Split(t, sep)[0]] + Split(t, sep)[1..]
  {
    if p != [] {
      var q := Split(t, sep);
      assert (p + t)[0] == p[0] && (p + t)[1..] == p[1..] + t;
      SplitPrefix(p[1..], t, sep);
      var r := Split(p[1..] + t, sep);
      assert r == [p[1..] + q[0]] + q[1..];
      assert Split(p + t, sep) == [[p[0]] + r[0]] + r[1..];
      assert [p[0]] + (p[1..] + q[0]) == p + q[0];
    } else {
      var q := Split(t, sep);
      assert p + t == t && p + q[0] == q[0];
      assert [q[0]] + q[1..] == q;
    }
  }

  /** Joining separator-free parts and splitting again gives back the parts. */
  lemma {:induction false} SplitJoin(parts: seq<string>, c: char)
    requires |parts| >= 1
    requires forall k :: 0 <= k < |parts| ==> NoSeparator(parts[k], OneChar(c))
    ensures Split(Join(parts, [c]), OneChar(c)) == parts
  {
    if |parts| == 1 {
      SplitPrefix(parts[0], [], OneChar(c));
      assert parts[0] + [] == parts[0];
    } else {
      var tail := Join(parts[1..], [c]);
      SplitJoin(parts[1..], c);
      assert Join(parts, [c]) == parts[0] + ([c] + tail);
      SplitPrefix(parts[0], [c] + tail, OneChar(c));
      assert ([c] + tail)[0] == c && ([c] + tail)[1..] == tail;
      assert Split([c] + tail, OneChar(c)) == [[]] + parts[1..];
      assert parts[0] + [] == parts[0];
    }
  }

  /** A string with exactly one separator character splits into the two sides. */
  lemma SplitTwo(a: string, b: string, c: char)
    requires NoSeparator(a, OneChar(c)) && NoSeparator(b, OneChar(c))
    ensures Split(a + [c] + b, OneChar(c)) == [a, b]
  {
    assert Join([a, b], [c]) == a + [c] + b;
    SplitJoin([a, b], c);
  }

  /** Two separator-free strings joined stay separator-free. */
  lemma NoSeparatorConcat(a: string, b: string, sep: Separator)
    requires NoSeparator(a, sep) && NoSeparator(b, sep)
    ensures NoSeparator(a + b, sep)
  {
    forall i | 0 <= i < |a + b|
      ensures !IsSeparator(sep, (a + b)[i])
    {
      if i >= |a| {
        assert (a + b)[i] == b[i - |a|];
      }
    }
  }

  /** A string without a separator is one part. */
  lemma SplitWhole(a: string, sep: Separator)
    requires NoSeparator(a, sep)
    ensures Split(a, sep) == [a]
  {
    SplitPrefix(a, [], sep);
    assert a + [] == a;
  }

  /** The same, as an implication that holds for every string. */
  lemma SplitWholeWhen(a: string, sep: Separator)
    ensures NoSeparator(a, sep) ==> Split(a, sep) == [a]
  {
    if NoSeparator(a, sep) {
      SplitWhole(a, sep);
    }
  }

  /** A separator-free prefix followed by a separator becomes the first part. */
  lemma SplitAfter(a: string, c: char, t: string, sep: Separator)
    requires NoSeparator(a, sep) && IsSeparator(sep, c)
    ensures Split(a + [c] + t, sep) == [a] + Split(t, sep)
  {
    assert a + [c] + t == a + ([c] + t);
    SplitPrefix(a, [c] + t, sep);
    assert ([c] + t)[1..] == t;
    assert a + [] == a;
  }

  /** Three separator-free parts around two separators. */
  lemma SplitThree(a: string, c1: char, b: string, c2: char, e: string, sep: Separator)
    requires NoSeparator(a, sep) && NoSeparator(b, sep) && NoSeparator(e, sep)
    requires IsSeparator(sep, c1) && IsSeparator(sep, c2)
    ensures Split(a + [c1] + b + [c2] + e, sep) == [a, b, e]
  {
    assert a + [c1] + b + [c2] + e == a + [c1] + (b + [c2] + e);
    SplitAfter(a, c1, b + [c2] + e, sep);
    SplitAfter(b, c2, e, sep);
    SplitWhole(e, sep);
  }
}
