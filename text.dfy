/** String operations of the Python and JavaScript runtimes that the
    generator and its page script call: `str.lower`/`toLowerCase` (on ASCII
    letters), `String.prototype.trim`, `String.prototype.includes`,
    `str.endswith`, `str.rfind` for one character and `str.join`. */
module Text {

  /** Lower-casing of one character, on the ASCII letters only. */
  function LowerChar(c: char): char
  {
    if 'A' <= c <= 'Z' then (c as int - 'A' as int + 'a' as int) as char else c
  }

  /** `s.lower()` / `s.toLowerCase()`, character by character. */
  function Lower(s: string): string
  {
    seq(|s|, i requires 0 <= i < |s| => LowerChar(s[i]))
  }

  /** A lower-cased string holds no upper-case ASCII letter, so lower-casing twice
      changes nothing. */
  lemma LowerIdempotent(s: string)
    ensures forall i :: 0 <= i < |s| ==> !('A' <= Lower(s)[i] <= 'Z')
    ensures Lower(Lower(s)) == Lower(s)
  {
  }

  /** `s.endswith(suffix)`. */
  predicate EndsWith(s: string, suffix: string)
  {
    |suffix| <= |s| && s[|s| - |suffix|..] == suffix
  }

  /** `needle` occurs in `hay` starting at position `i`. */
  predicate OccursAt(hay: string, needle: string, i: int)
  {
    0 <= i && i + |needle| <= |hay| && hay[i..i + |needle|] == needle
  }

  /** `hay.includes(needle)`; the empty needle occurs everywhere. */
  predicate Contains(hay: string, needle: string)
  {
    exists i | 0 <= i <= |hay| - |needle| :: OccursAt(hay, needle, i)
  }

  /** Every string contains the empty string. */
  lemma ContainsEmpty(hay: string)
    ensures Contains(hay, "")
  {
    assert OccursAt(hay, "", 0);
  }

  /** The characters `String.prototype.trim` strips: the ECMAScript WhiteSpace
      code points (tab, vertical tab, form feed, space, no-break space, the
      byte-order mark and the Unicode space separators) and the LineTerminator
      code points (line feed, carriage return, line and paragraph separators). */
  predicate IsJsSpace(c: char)
  {
    || c == '\t' || c == '\n' || c == '\U{000B}' || c == '\U{000C}' || c == '\r'
    || c == ' ' || c == '\U{00A0}' || c == '\U{1680}' || ('\U{2000}' <= c <= '\U{200A}')
    || c == '\U{2028}' || c == '\U{2029}' || c == '\U{202F}' || c == '\U{205F}'
    || c == '\U{3000}' || c == '\U{FEFF}'
  }

  /** The number of white-space characters at the front of `s`. */
  function LeadingSpaces(s: string): (n: nat)
    ensures n <= |s|
    ensures forall k :: 0 <= k < n ==> IsJsSpace(s[k])
    ensures n < |s| ==> !IsJsSpace(s[n])
  {
    if |s| > 0 && IsJsSpace(s[0]) then 1 + LeadingSpaces(s[1..]) else 0
  }

  /** The number of white-space characters at the back of `s`. */
  function TrailingSpaces(s: string): (n: nat)
    ensures n <= |s|
    ensures forall k :: |s| - n <= k < |s| ==> IsJsSpace(s[k])
    ensures n < |s| ==> !IsJsSpace(s[|s| - 1 - n])
  {
    if |s| > 0 && IsJsSpace(s[|s| - 1]) then 1 + TrailingSpaces(s[..|s| - 1]) else 0
  }

  /** `s.trim()`: the result is the part of `s` left once every white-space
      character before and after it is removed, and it neither starts nor ends
      with white space. */
  function Trim(s: string): (r: string)
    ensures r == [] || (!IsJsSpace(r[0]) && !IsJsSpace(r[|r| - 1]))
    ensures exists i | 0 <= i <= |s| - |r| ::
      (&& OccursAt(s, r, i)
       && (forall k :: 0 <= k < i ==> IsJsSpace(s[k]))
       && (forall k :: i + |r| <= k < |s| ==> IsJsSpace(s[k])))
  {
    var lo := LeadingSpaces(s);
    var t := s[lo..];
    var r := t[..|t| - TrailingSpaces(t)];
    assert OccursAt(s, r, lo);
    r
  }

  /** Trimming a trimmed string changes nothing. */
  lemma TrimIdempotent(s: string)
    ensures Trim(Trim(s)) == Trim(s)
  {
    var r := Trim(s);
    assert LeadingSpaces(r) == 0;
    assert TrailingSpaces(r) == 0;
  }

  /** Lower-casing maps white space to white space and nothing else to it. */
  lemma LowerCharKeepsSpace(c: char)
    ensures IsJsSpace(LowerChar(c)) <==> IsJsSpace(c)
  {
  }

  lemma {:induction false} LeadingSpacesOfLower(s: string)
    ensures LeadingSpaces(Lower(s)) == LeadingSpaces(s)
    decreases |s|
  {
    if |s| > 0 {
      LowerCharKeepsSpace(s[0]);
      assert Lower(s)[1..] == Lower(s[1..]);
      LeadingSpacesOfLower(s[1..]);
    }
  }

  lemma {:induction false} TrailingSpacesOfLower(s: string)
    ensures TrailingSpaces(Lower(s)) == TrailingSpaces(s)
    decreases |s|
  {
    if |s| > 0 {
      LowerCharKeepsSpace(s[|s| - 1]);
      assert Lower(s)[..|s| - 1] == Lower(s[..|s| - 1]);
      TrailingSpacesOfLower(s[..|s| - 1]);
    }
  }

  /** Lower-casing commutes with dropping a prefix and with taking one. */
  lemma LowerSlices(s: string, a: nat, b: nat)
    requires a <= |s| && b <= |s|
    ensures Lower(s)[a..] == Lower(s[a..])
    ensures Lower(s)[..b] == Lower(s[..b])
  {
  }

  /** Trimming and lower-casing commute, so the order in which the page script
      applies them does not matter. */
  lemma TrimLowerCommute(s: string)
    ensures Trim(Lower(s)) == Lower(Trim(s))
  {
    var lo := LeadingSpaces(s);
    var t := s[lo..];
    var hi := |t| - TrailingSpaces(t);
    LeadingSpacesOfLower(s);
    TrailingSpacesOfLower(t);
    LowerSlices(s, lo, 0);
    LowerSlices(t, 0, hi);
    assert Trim(s) == t[..hi];
    assert Trim(Lower(s)) == Lower(t)[..hi];
  }

  /** `str.rfind(c)`: the last position of `c` in `s`, or -1 when there is none. */
  function RFind(s: string, c: char): (r: int)
    ensures -1 <= r < |s|
    ensures 0 <= r ==> s[r] == c
    ensures forall k :: r < k < |s| ==> s[k] != c
  {
    if |s| == 0 then -1
    else if s[|s| - 1] == c then |s| - 1
    else RFind(s[..|s| - 1], c)
  }

  /** When `c` does not occur from position `i` on, `rfind` finds it, if at
      all, before `i`. */
  lemma RFindBelow(s: string, c: char, i: int)
    requires 0 <= i <= |s|
    requires forall k :: i <= k < |s| ==> s[k] != c
    ensures RFind(s, c) < i
  {
    var r := RFind(s, c);
    assert 0 <= r ==> s[r] == c;
  }

  /** Every character of `s` is a dot. */
  predicate AllDots(s: string)
  {
    forall k :: 0 <= k < |s| ==> s[k] == '.'
  }

  /** `sep.join(parts)`. */
  function Join(sep: string, parts: seq<string>): string
  {
    if |parts| == 0 then ""
    else if |parts| == 1 then parts[0]
    else Join(sep, parts[..|parts| - 1]) + sep + parts[|parts| - 1]
  }

  /** The position at which part `k` begins in `Join(sep, parts)`: every part
      before it followed by one separator. */
  function PartOffset(sep: string, parts: seq<string>, k: nat): nat
    requires k <= |parts|
  {
    if k == 0 then 0 else PartOffset(sep, parts, k - 1) + |parts[k - 1]| + |sep|
  }

  /** The offsets of a part do not depend on the parts after it. */
  lemma {:induction false} PartOffsetPrefix(sep: string, parts: seq<string>, n: nat, k: nat)
    requires k <= n <= |parts|
    ensures PartOffset(sep, parts[..n], k) == PartOffset(sep, parts, k)
  {
    if k > 0 {
      PartOffsetPrefix(sep, parts, n, k - 1);
    }
  }

  /** The length of a join: every part plus one separator between each two. */
  lemma {:induction false} JoinLength(sep: string, parts: seq<string>)
    requires |parts| > 0
    ensures |Join(sep, parts)| + |sep| == PartOffset(sep, parts, |parts|)
  {
    var n := |parts|;
    if n > 1 {
      JoinLength(sep, parts[..n - 1]);
      PartOffsetPrefix(sep, parts, n - 1, n - 1);
    }
  }

  /** Part `k` of a join sits at its offset. */
  lemma {:induction false} JoinPartAt(sep: string, parts: seq<string>, k: nat)
    requires k < |parts|
    ensures PartOffset(sep, parts, k) + |parts[k]| <= |Join(sep, parts)|
    ensures Join(sep, parts)[PartOffset(sep, parts, k)..PartOffset(sep, parts, k) + |parts[k]|] == parts[k]
  {
    var n := |parts|;
    if n > 1 {
      var init := parts[..n - 1];
      var j, ji := Join(sep, parts), Join(sep, init);
      var o := PartOffset(sep, parts, k);
      assert j == ji + sep + parts[n - 1];
      PartOffsetPrefix(sep, parts, n - 1, k);
      if k < n - 1 {
        JoinPartAt(sep, init, k);
        assert init[k] == parts[k];
        assert j[o..o + |parts[k]|] == ji[o..o + |parts[k]|];
      } else {
        JoinLength(sep, init);
        assert o == |ji| + |sep|;
      }
    }
  }

  /** Parts `k` and `k + 1` of a join are separated by exactly one `sep`. */
  lemma {:induction false} JoinSeparatorAt(sep: string, parts: seq<string>, k: nat)
    requires k + 1 < |parts|
    ensures PartOffset(sep, parts, k + 1) <= |Join(sep, parts)|
    ensures Join(sep, parts)[PartOffset(sep, parts, k) + |parts[k]|..PartOffset(sep, parts, k + 1)] == sep
  {
    var n := |parts|;
    var init := parts[..n - 1];
    var j, ji := Join(sep, parts), Join(sep, init);
    var o := PartOffset(sep, parts, k) + |parts[k]|;
    assert j == ji + sep + parts[n - 1];
    PartOffsetPrefix(sep, parts, n - 1, k + 1);
    PartOffsetPrefix(sep, parts, n - 1, k);
    assert init[k] == parts[k];
    if k + 1 < n - 1 {
      JoinSeparatorAt(sep, init, k);
      assert j[o..PartOffset(sep, parts, k + 1)] == ji[o..PartOffset(sep, parts, k + 1)];
    } else {
      JoinLength(sep, init);
      assert o == |ji|;
    }
  }
}
