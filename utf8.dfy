/**
 * Rust strings as their UTF-8 bytes: `str::is_char_boundary`, the safe-preview
 * truncation both the parser and the UDP handler use when they log a message,
 * and a structural notion of well-formed UTF-8 under which truncating at a
 * char boundary keeps a string well formed.
 */
module Utf8 {

  type Byte = bv8

  /** A Rust `String` or `&str`, as the sequence of its UTF-8 bytes. */
  type Str = seq<Byte>

  /** A UTF-8 continuation byte, `10xxxxxx`. */
  predicate IsContinuation(b: Byte) {
    b & 0xC0 == 0x80
  }

  /**
   * `str::is_char_boundary(i)`: index 0 and the end of the string are
   * boundaries, an index past the end is not, and any other index is one
   * unless the byte there continues a multi-byte character.
   */
  predicate IsCharBoundary(s: Str, i: nat) {
    i == 0 || i == |s| || (i < |s| && !IsContinuation(s[i]))
  }

  /** The largest char boundary of `t` that is at most `end`. */
  function LastBoundaryAtMost(t: Str, end: nat): (e: nat)
    requires end < |t|
    ensures e <= end && IsCharBoundary(t, e)
    ensures forall j :: e < j <= end ==> !IsCharBoundary(t, j)
    decreases end
  {
    if end == 0 || IsCharBoundary(t, end) then end else LastBoundaryAtMost(t, end - 1)
  }

  /**
   * The preview of `t` limited to `maxLen` bytes: `t` itself when it fits,
   * otherwise its longest prefix that ends on a char boundary and is no
   * longer than `maxLen`.
   */
  function SafePreview(t: Str, maxLen: nat): (p: Str)
    ensures |t| <= maxLen ==> p == t
    ensures |p| <= maxLen && |p| <= |t| && p == t[..|p|]
    ensures IsCharBoundary(t, |p|)
    ensures forall j :: |p| < j <= maxLen ==> !IsCharBoundary(t, j)
  {
    if |t| <= maxLen then t else t[..LastBoundaryAtMost(t, maxLen)]
  }

  /**
   * The number of bytes of the character that `lead` starts (1 to 4), or 0
   * when `lead` cannot start a character.
   */
  function CharWidth(lead: Byte): nat {
    if lead & 0x80 == 0x00 then 1
    else if lead & 0xE0 == 0xC0 then 2
    else if lead & 0xF0 == 0xE0 then 3
    else if lead & 0xF8 == 0xF0 then 4
    else 0
  }

  /**
   * `s` splits into characters, each a lead byte followed by as many
   * continuation bytes as the lead announces. (Structural only: overlong
   * forms, surrogates and code points above U+10FFFF are not excluded.)
   */
  predicate WellFormed(s: Str)
    decreases |s|
  {
    s == [] ||
    var w := CharWidth(s[0]);
    0 < w <= |s| &&
    (forall k :: 1 <= k < w ==> IsContinuation(s[k])) &&
    WellFormed(s[w..])
  }

  /** What `WellFormed` says of a non-empty string. */
  lemma FirstChar(s: Str)
    requires WellFormed(s) && s != []
    ensures 0 < CharWidth(s[0]) <= |s|
    ensures forall k :: 1 <= k < CharWidth(s[0]) ==> IsContinuation(s[k])
    ensures WellFormed(s[CharWidth(s[0])..])
  {
  }

  /**
   * A prefix of `s` that takes the whole first character of `s`, followed by a
   * well-formed piece of the rest, is well formed.
   */
  lemma PrefixFromFirstChar(s: Str, i: nat)
    requires s != [] && 0 < CharWidth(s[0]) <= i <= |s|
    requires forall k :: 1 <= k < CharWidth(s[0]) ==> IsContinuation(s[k])
    requires WellFormed(s[CharWidth(s[0])..][..i - CharWidth(s[0])])
    ensures WellFormed(s[..i])
  {
    var w := CharWidth(s[0]);
    var p := s[..i];
    assert p[w..] == s[w..][..i - w];
    assert forall k :: 1 <= k < w ==> p[k] == s[k];
  }

  /** A positive char boundary of a well-formed string lies past its first character. */
  lemma FirstCharEndsBeforeBoundary(s: Str, i: nat)
    requires WellFormed(s) && s != [] && 0 < i && IsCharBoundary(s, i)
    ensures CharWidth(s[0]) <= i
  {
    FirstChar(s);
  }

  /** A boundary of `s` at or after `w` is a boundary of `s[w..]`, shifted by `w`. */
  lemma BoundaryOfSuffix(s: Str, w: nat, i: nat)
    requires w <= i && IsCharBoundary(s, i) && w <= |s|
    ensures IsCharBoundary(s[w..], i - w)
  {
    if i < |s| {
      assert s[w..][i - w] == s[i];
    }
  }

  /** Cutting a well-formed string at a char boundary leaves a well-formed string. */
  lemma {:induction false} BoundaryPrefixWellFormed(s: Str, i: nat)
    requires WellFormed(s) && IsCharBoundary(s, i)
    ensures WellFormed(s[..i])
    decreases |s|
  {
    if i == 0 {
      assert s[..i] == [];
    } else {
      FirstChar(s);
      var w := CharWidth(s[0]);
      FirstCharEndsBeforeBoundary(s, i);
      BoundaryOfSuffix(s, w, i);
      BoundaryPrefixWellFormed(s[w..], i - w);
      PrefixFromFirstChar(s, i);
    }
  }

  /** Every safe preview of a well-formed string is well formed. */
  lemma PreviewWellFormed(t: Str, maxLen: nat)
    requires WellFormed(t)
    ensures WellFormed(SafePreview(t, maxLen))
  {
    var p := SafePreview(t, maxLen);
    BoundaryPrefixWellFormed(t, |p|);
    assert t[..|p|] == p;
  }
}
