/**
 * The string helpers that ResourceUtils calls, stated over `string` (a
 * sequence of characters): `String.replace(char, char)` from the Java
 * runtime, and `isBlank`, `trim`, `removeStart`, `removeEnd` and
 * `substringAfterLast` as the Apache commons-lang `StringUtils` class
 * defines them, together with the Java runtime pieces those rely on
 * (`Character.isWhitespace`, `String.trim`, `String.endsWith`,
 * `String.lastIndexOf`). A Java `null` string is `None`.
 */
module Strings {

  import opened Wrappers

  /** Java's `Character.isWhitespace`, with the space, line and paragraph
      separators of Unicode 6.2 (the table of Java 8), minus the three
      non-breaking spaces U+00A0, U+2007 and U+202F. The path separator,
      the backslash and the key separator are never whitespace. */
  predicate IsWhitespace(c: char): (b: bool)
    ensures c == ' ' || c == '\t' || c == '\n' || c == '\r' ==> b
    ensures c == '/' || c == '\\' || c == ':' || c == '\0' ==> !b
  {
    var n := c as int;
    || 0x09 <= n <= 0x0D
    || 0x1C <= n <= 0x20
    || n == 0x1680
    || n == 0x180E
    || 0x2000 <= n <= 0x2006
    || 0x2008 <= n <= 0x200A
    || n == 0x2028
    || n == 0x2029
    || n == 0x205F
    || n == 0x3000
  }

  /** `StringUtils.isBlank`: null, empty, or whitespace only; its negation
      is `StringUtils.isNotBlank`. A blank string holds no path separator,
      backslash or key separator. */
  predicate IsBlank(s: Option<string>): (b: bool)
    ensures s == Some([]) ==> b
    ensures b && s.Some? ==> '/' !in s.value && '\\' !in s.value && ':' !in s.value
  {
    match s
    case None => true
    case Some(t) => forall i :: 0 <= i < |t| ==> IsWhitespace(t[i])
  }

  /** `String.replace(from, to)`: every occurrence of `from` becomes `to`,
      every other character stays where it was. */
  function Replace(s: string, from: char, to: char): (r: string)
    ensures |r| == |s|
    ensures forall i :: 0 <= i < |s| ==> r[i] == (if s[i] == from then to else s[i])
    ensures from != to ==> from !in r
  {
    if s == [] then []
    else [if s[0] == from then to else s[0]] + Replace(s[1..], from, to)
  }

  /** The characters `String.trim()` removes: every code point up to and
      including U+0020. Separators are never trimmed. */
  predicate IsTrimmable(c: char): (b: bool)
    ensures c == ' ' || c == '\0' ==> b
    ensures c == '/' || c == '\\' || c == ':' ==> !b
  {
    c <= ' '
  }

  /** Being blank and being trimmed away differ in both directions: the
      ideographic space U+3000 is whitespace but survives trimming, and
      U+0000 is not whitespace but is trimmed away. */
  lemma BlankDiffersFromTrimmable()
    ensures IsBlank(Some(['\U{3000}'])) && Trim(['\U{3000}']) == ['\U{3000}']
    ensures !IsBlank(Some(['\0'])) && Trim(['\0']) == []
  {
    TrimUntrimmed(['\U{3000}']);
    assert !IsWhitespace(['\0'][0]);
  }

  /** The leading half of `String.trim()`: the longest suffix of `s` that
      does not start with a trimmable character. */
  function TrimLeft(s: string): (r: string)
    ensures |r| <= |s| && r == s[|s| - |r|..]
    ensures forall k :: 0 <= k < |s| - |r| ==> IsTrimmable(s[k])
    ensures r == [] || !IsTrimmable(r[0])
  {
    if s != [] && IsTrimmable(s[0]) then TrimLeft(s[1..]) else s
  }

  /** The trailing half of `String.trim()`: the longest prefix of `s` that
      does not end with a trimmable character. */
  function TrimRight(s: string): (r: string)
    ensures |r| <= |s| && r == s[..|r|]
    ensures forall k :: |r| <= k < |s| ==> IsTrimmable(s[k])
    ensures r == [] || !IsTrimmable(r[|r| - 1])
  {
    if s != [] && IsTrimmable(s[|s| - 1]) then TrimRight(s[..|s| - 1]) else s
  }

  /** True when `s` has no trimmable character at either end. */
  predicate Untrimmed(s: string) {
    s == [] || (!IsTrimmable(s[0]) && !IsTrimmable(s[|s| - 1]))
  }

  /** `StringUtils.trim`, that is `String.trim()`: `s` without its leading
      and trailing characters up to U+0020. */
  function Trim(s: string): (r: string)
    ensures |r| <= |s|
    ensures Untrimmed(r)
    ensures r == [] <==> forall k :: 0 <= k < |s| ==> IsTrimmable(s[k])
  {
    var l := TrimLeft(s);
    var r := TrimRight(l);
    assert |r| < |l| ==> IsTrimmable(l[|r|]);
    r
  }

  /** What `Trim` keeps is one contiguous piece of `s`, and everything on
      either side of it is trimmable. */
  lemma TrimIsInfix(s: string)
    ensures var i := |s| - |TrimLeft(s)|;
            && i + |Trim(s)| <= |s|
            && Trim(s) == s[i..i + |Trim(s)|]
            && (forall k :: 0 <= k < i ==> IsTrimmable(s[k]))
            && (forall k :: i + |Trim(s)| <= k < |s| ==> IsTrimmable(s[k]))
  {
  }

  /** A string that already has no trimmable ends is left as it is. */
  lemma TrimUntrimmed(s: string)
    requires Untrimmed(s)
    ensures Trim(s) == s
  {
  }

  /** `Trim` characterised without its definition: if `s` splits into a
      trimmable head, a middle with no trimmable ends, and a trimmable
      tail, then trimming yields exactly that middle. */
  lemma {:induction false} TrimUnique(head: string, mid: string, tail: string)
    requires forall k :: 0 <= k < |head| ==> IsTrimmable(head[k])
    requires forall k :: 0 <= k < |tail| ==> IsTrimmable(tail[k])
    requires Untrimmed(mid)
    ensures Trim(head + mid + tail) == mid
  {
    var s := head + mid + tail;
    if mid == [] {
      assert forall k :: 0 <= k < |s| ==> IsTrimmable(s[k]) by {
        forall k | 0 <= k < |s| ensures IsTrimmable(s[k]) {
          if k < |head| { assert s[k] == head[k]; }
          else { assert s[k] == tail[k - |head|]; }
        }
      }
    } else {
      TrimLeftOfPrefix(head, mid + tail);
      assert s == head + (mid + tail);
      TrimRightOfSuffix(mid, tail);
    }
  }

  /** A trimmable head in front of a string that starts with a
      non-trimmable character is exactly what `TrimLeft` removes. */
  lemma {:induction false} TrimLeftOfPrefix(head: string, rest: string)
    requires forall k :: 0 <= k < |head| ==> IsTrimmable(head[k])
    requires rest != [] && !IsTrimmable(rest[0])
    ensures TrimLeft(head + rest) == rest
  {
    if head != [] {
      assert (head + rest)[1..] == head[1..] + rest;
      TrimLeftOfPrefix(head[1..], rest);
    }
  }

  /** A trimmable tail behind a string that ends with a non-trimmable
      character is exactly what `TrimRight` removes. */
  lemma {:induction false} TrimRightOfSuffix(rest: string, tail: string)
    requires forall k :: 0 <= k < |tail| ==> IsTrimmable(tail[k])
    requires rest != [] && !IsTrimmable(rest[|rest| - 1])
    ensures TrimRight(rest + tail) == rest
  {
    if tail != [] {
      var s := rest + tail;
      assert s[..|s| - 1] == rest + tail[..|tail| - 1];
      TrimRightOfSuffix(rest, tail[..|tail| - 1]);
    } else {
      assert rest + tail == rest;
    }
  }

  /** Trimming twice is trimming once. */
  lemma TrimIdempotent(s: string)
    ensures Trim(Trim(s)) == Trim(s)
  {
    TrimUntrimmed(Trim(s));
  }

  /** `StringUtils.removeStart`: drops `remove` from the front of `s` once,
      when `remove` is non-empty and `s` starts with it; otherwise `s` is
      returned as it is. */
  function RemoveStart(s: string, remove: string): (r: string)
    ensures |r| <= |s|
    ensures remove != [] && remove <= s ==> s == remove + r
    ensures forall c :: c in r ==> c in s
    ensures !(remove != [] && remove <= s) ==> r == s
  {
    if s == [] || remove == [] then s
    else if remove <= s then s[|remove|..]
    else s
  }

  /** `StringUtils.removeEnd`: drops `remove` from the end of `s` once,
      when `remove` is non-empty and `s` ends with it; otherwise `s` is
      returned as it is. */
  function RemoveEnd(s: string, remove: string): (r: string)
    ensures |r| <= |s|
    ensures remove != [] && EndsWith(s, remove) ==> s == r + remove
    ensures forall c :: c in r ==> c in s
    ensures !(remove != [] && EndsWith(s, remove)) ==> r == s
  {
    if s == [] || remove == [] then s
    else if EndsWith(s, remove) then s[..|s| - |remove|]
    else s
  }

  /** `String.endsWith`. */
  predicate EndsWith(s: string, suffix: string) {
    |suffix| <= |s| && s[|s| - |suffix|..] == suffix
  }

  /** `String.lastIndexOf(char)`: the position of the last `c` in `s`, or
      -1 when `s` does not contain `c`. */
  function LastIndexOf(s: string, c: char): (r: int)
    ensures -1 <= r < |s|
    ensures r == -1 <==> c !in s
    ensures r >= 0 ==> s[r] == c && forall k :: r < k < |s| ==> s[k] != c
  {
    if s == [] then -1
    else if s[|s| - 1] == c then |s| - 1
    else
      assert forall k :: 0 <= k < |s| - 1 ==> s[k] == s[..|s| - 1][k];
      assert c in s ==> c in s[..|s| - 1] by {
        if c in s {
          var k :| 0 <= k < |s| && s[k] == c;
          assert s[..|s| - 1][k] == c;
        }
      }
      LastIndexOf(s[..|s| - 1], c)
  }

  /** `StringUtils.substringAfterLast` with a one-character separator: the
      part of `s` after the last `sep`; empty when `s` is empty, when
      `sep` does not occur in it, or when `sep` is its last character. */
  function SubstringAfterLast(s: string, sep: char): (r: string)
    ensures |r| <= |s| && r == s[|s| - |r|..]
    ensures sep !in r
    ensures sep !in s ==> r == []
    ensures sep in s ==> |r| < |s| && s[|s| - |r| - 1] == sep
  {
    if s == [] then s
    else
      var pos := LastIndexOf(s, sep);
      if pos == -1 || pos == |s| - 1 then []
      else s[pos + 1..]
  }

  /** Whatever stands before the last separator, the part after it is
      exactly what `SubstringAfterLast` returns. */
  lemma SubstringAfterLastOfJoin(prefix: string, sep: char, last: string)
    requires sep !in last
    ensures SubstringAfterLast(prefix + [sep] + last, sep) == last
  {
    var s := prefix + [sep] + last;
    assert s[|prefix|] == sep;
    forall k | |prefix| < k < |s| ensures s[k] != sep {
      assert s[k] == last[k - |prefix| - 1];
    }
    assert LastIndexOf(s, sep) == |prefix|;
    assert s[|prefix| + 1..] == last;
  }
}
