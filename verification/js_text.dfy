/** The JavaScript string operations the extractors apply to text read from
    the document: `trim`, `toLowerCase` (ASCII letters only), `replace` with a
    one-character string pattern, `includes`, and the line terminators that a
    regular expression's `.` refuses to match. */
module JsText {
  import opened Wrappers

  /** LineTerminator of ECMAScript: LF, CR, LINE SEPARATOR, PARAGRAPH SEPARATOR. */
  predicate IsLineTerminator(c: char) {
    c == '\n' || c == '\r' || c == '\U{2028}' || c == '\U{2029}'
  }

  /** WhiteSpace of ECMAScript: TAB, VT, FF, ZWNBSP and every code point of
      the Unicode category Zs. */
  predicate IsWhiteSpace(c: char) {
    || c == '\t' || c == '\U{000B}' || c == '\U{000C}' || c == '\U{FEFF}'
    || c == ' ' || c == '\U{00A0}' || c == '\U{1680}'
    || ('\U{2000}' <= c <= '\U{200A}')
    || c == '\U{202F}' || c == '\U{205F}' || c == '\U{3000}'
  }

  /** The code points `String.prototype.trim` strips from both ends. */
  predicate IsTrimmable(c: char) {
    IsWhiteSpace(c) || IsLineTerminator(c)
  }

  /** The longest suffix of `s` that does not start with a trimmable code point. */
  function TrimStart(s: string): (r: string)
    ensures |r| <= |s| && r == s[|s| - |r|..]
    ensures forall k :: 0 <= k < |s| - |r| ==> IsTrimmable(s[k])
    ensures r == [] || !IsTrimmable(r[0])
  {
    if |s| > 0 && IsTrimmable(s[0]) then TrimStart(s[1..]) else s
  }

  /** The longest prefix of `s` that does not end with a trimmable code point. */
  function TrimEnd(s: string): (r: string)
    ensures |r| <= |s| && r == s[..|r|]
    ensures forall k :: |r| <= k < |s| ==> IsTrimmable(s[k])
    ensures r == [] || !IsTrimmable(r[|r| - 1])
  {
    if |s| > 0 && IsTrimmable(s[|s| - 1]) then TrimEnd(s[..|s| - 1]) else s
  }

  /** `t` is `s` with the trimmable code points before index `i` and after
      `t` removed, and `t` neither starts nor ends with one. */
  ghost predicate IsTrimAt(s: string, i: int, t: string) {
    && 0 <= i && i + |t| <= |s| && t == s[i..i + |t|]
    && (forall k :: 0 <= k < i ==> IsTrimmable(s[k]))
    && (forall k :: i + |t| <= k < |s| ==> IsTrimmable(s[k]))
    && (t == [] || (!IsTrimmable(t[0]) && !IsTrimmable(t[|t| - 1])))
  }

  /** `t` is `s` with every trimmable code point removed from both ends and nothing else touched. */
  ghost predicate IsTrimOf(s: string, t: string) {
    exists i :: IsTrimAt(s, i, t)
  }

  /** `String.prototype.trim`. */
  function Trim(s: string): (r: string)
    ensures IsTrimOf(s, r)
  {
    var a := TrimStart(s);
    var r := TrimEnd(a);
    assert IsTrimAt(s, |s| - |a|, r);
    r
  }

  /** The non-empty kept part of one trim lies inside the kept part of any other. */
  lemma KeptPartInside(s: string, i: int, t: string, j: int, r: string)
    requires IsTrimAt(s, i, t) && IsTrimAt(s, j, r) && r != []
    ensures i <= j && j + |r| <= i + |t|
  {
    assert r[0] == s[j] && r[|r| - 1] == s[j + |r| - 1];
    assert !IsTrimmable(s[j]) && !IsTrimmable(s[j + |r| - 1]);
  }

  /** `IsTrimOf` pins the result down: a string has exactly one trim. */
  lemma TrimIsUnique(s: string, t: string)
    requires IsTrimOf(s, t)
    ensures t == Trim(s)
  {
    var r := Trim(s);
    var i :| IsTrimAt(s, i, t);
    var j :| IsTrimAt(s, j, r);
    if r != [] {
      KeptPartInside(s, i, t, j, r);
    }
    if t != [] {
      KeptPartInside(s, j, r, i, t);
    }
    if t != [] && r != [] {
      assert i == j && |t| == |r|;
    }
  }

  /** Trimming twice is trimming once. */
  lemma TrimIdempotent(s: string)
    ensures Trim(Trim(s)) == Trim(s)
  {
    var t := Trim(s);
    assert IsTrimAt(t, 0, t);
    TrimIsUnique(t, t);
  }

  /** `toLowerCase` of one code point, restricted to the ASCII letters. */
  function LowerChar(c: char): (r: char)
    ensures ('A' <= c <= 'Z') ==> r as int == c as int + 32
    ensures !('A' <= c <= 'Z') ==> r == c
  {
    if 'A' <= c <= 'Z' then (c as int + 32) as char else c
  }

  /** `String.prototype.toLowerCase`, restricted to the ASCII letters. */
  function ToLowerAscii(s: string): (r: string)
    ensures |r| == |s|
    ensures forall k :: 0 <= k < |s| ==> r[k] == LowerChar(s[k])
  {
    if |s| == 0 then [] else ToLowerAscii(s[..|s| - 1]) + [LowerChar(s[|s| - 1])]
  }

  /** The position of the first `c` in `s`, as `String.prototype.indexOf` finds it. */
  function IndexOf(s: string, c: char): (r: Option<nat>)
    ensures r.None? <==> c !in s
    ensures r.Some? ==> r.value < |s| && s[r.value] == c && c !in s[..r.value]
  {
    if |s| == 0 then None
    else if s[0] == c then Some(0)
    else match IndexOf(s[1..], c)
      case None => None
      case Some(k) => Some(k + 1)
  }

  /** `s.replace(c, '')` for a one-character string pattern: only the first
      occurrence of `c` is removed. */
  function RemoveFirst(s: string, c: char): (r: string)
    ensures c !in s ==> r == s
    ensures c in s ==> |r| == |s| - 1 && multiset(r) == multiset(s) - multiset{c}
    ensures c in s ==> exists k :: 0 <= k < |s| && s[k] == c && c !in s[..k] && r == s[..k] + s[k + 1..]
  {
    match IndexOf(s, c)
    case None => s
    case Some(k) =>
      assert s == s[..k] + [s[k]] + s[k + 1..];
      s[..k] + s[k + 1..]
  }

  /** `pat` occurs in `s` starting at index `i`. */
  predicate StartsAt(s: string, i: int, pat: string) {
    0 <= i && i + |pat| <= |s| && s[i..i + |pat|] == pat
  }

  /** `String.prototype.includes`. */
  predicate Includes(s: string, pat: string) {
    exists i | 0 <= i <= |s| - |pat| :: StartsAt(s, i, pat)
  }
}
