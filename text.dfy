/**
 * The three string operations the leave-management view relies on:
 * `toLowerCase` (ASCII letters only), `includes` and `trim`.
 */
module Text {

  predicate IsUpper(c: char) { 'A' <= c <= 'Z' }

  predicate IsLower(c: char) { 'a' <= c <= 'z' }

  function LowerChar(c: char): char
  {
    if IsUpper(c) then (c as int + 32) as char else c
  }

  function UpperChar(c: char): char
  {
    if IsLower(c) then (c as int - 32) as char else c
  }

  /** `toLowerCase`, restricted to the ASCII letters. */
  function ToLower(s: string): (r: string)
    ensures |r| == |s|
    ensures forall k :: 0 <= k < |s| ==> r[k] == LowerChar(s[k])
    ensures forall k :: 0 <= k < |r| ==> !IsUpper(r[k])
  {
    if s == [] then [] else [LowerChar(s[0])] + ToLower(s[1..])
  }

  /** `toUpperCase`, restricted to the ASCII letters; used only to state case-insensitivity. */
  function ToUpper(s: string): (r: string)
    ensures |r| == |s|
    ensures forall k :: 0 <= k < |s| ==> r[k] == UpperChar(s[k])
    ensures forall k :: 0 <= k < |r| ==> !IsLower(r[k])
  {
    if s == [] then [] else [UpperChar(s[0])] + ToUpper(s[1..])
  }

  /** One character lower-cases the same whichever case it was first put in. */
  lemma LowerCharForgetsCase(c: char)
    ensures LowerChar(UpperChar(c)) == LowerChar(c)
    ensures LowerChar(LowerChar(c)) == LowerChar(c)
  {
  }

  /** Under the ASCII case mapping, lower-casing forgets the case a string was written in. */
  lemma ToLowerForgetsCase(s: string)
    ensures ToLower(ToUpper(s)) == ToLower(s)
    ensures ToLower(ToLower(s)) == ToLower(s)
  {
    var lower, upper := ToLower(s), ToUpper(s);
    forall k | 0 <= k < |s|
      ensures ToLower(upper)[k] == lower[k] && ToLower(lower)[k] == lower[k]
    {
      LowerCharForgetsCase(s[k]);
    }
  }

  /** `t` occurs in `s` starting at position `i`. */
  predicate OccursAt(s: string, t: string, i: int)
  {
    0 <= i <= |s| - |t| && s[i..i + |t|] == t
  }

  /**
   * `s.includes(t)`: `t` occurs in `s` as a contiguous piece. Every string
   * includes the empty string, and nothing longer than itself.
   */
  predicate Contains(s: string, t: string): (b: bool)
    ensures t == [] ==> b
    ensures b ==> |t| <= |s|
  {
    assert t == [] ==> OccursAt(s, t, 0);
    exists i | 0 <= i <= |s| - |t| :: OccursAt(s, t, i)
  }

  /**
   * The characters `String.prototype.trim` removes: the ECMAScript WhiteSpace
   * code points (tab, vertical tab, form feed, space, no-break space, byte order
   * mark and the Unicode category Zs) and the LineTerminator code points.
   */
  predicate IsWhiteSpace(c: char)
  {
    var n := c as int;
    // WhiteSpace outside category Zs
    || n == 0x09 || n == 0x0B || n == 0x0C || n == 0xFEFF
    // category Zs
    || n == 0x20 || n == 0xA0 || n == 0x1680 || (0x2000 <= n <= 0x200A)
    || n == 0x202F || n == 0x205F || n == 0x3000
    // LineTerminator
    || n == 0x0A || n == 0x0D || n == 0x2028 || n == 0x2029
  }

  /** Drops the leading white space: the result is the suffix starting at the first other character. */
  function TrimStart(s: string): (r: string)
    ensures |r| <= |s| && r == s[|s| - |r|..]
    ensures forall k :: 0 <= k < |s| - |r| ==> IsWhiteSpace(s[k])
    ensures r == [] || !IsWhiteSpace(r[0])
  {
    if s != [] && IsWhiteSpace(s[0]) then TrimStart(s[1..]) else s
  }

  /** Drops the trailing white space: the result is the prefix ending at the last other character. */
  function TrimEnd(s: string): (r: string)
    ensures |r| <= |s| && r == s[..|r|]
    ensures forall k :: |r| <= k < |s| ==> IsWhiteSpace(s[k])
    ensures r == [] || !IsWhiteSpace(r[|r| - 1])
  {
    if s != [] && IsWhiteSpace(s[|s| - 1]) then TrimEnd(s[..|s| - 1]) else s
  }

  /** `r` occurs in `s` at `off`, and everything of `s` before and after it is white space. */
  predicate PaddedAt(s: string, r: string, off: int)
  {
    && OccursAt(s, r, off)
    && (forall k :: 0 <= k < off ==> IsWhiteSpace(s[k]))
    && (forall k :: off + |r| <= k < |s| ==> IsWhiteSpace(s[k]))
  }

  /**
   * Cutting white space off the front of `s` (leaving `t`) and then off the
   * back of `t` (leaving `r`) leaves `r` padded in `s` by white space.
   */
  lemma PaddedPiece(s: string, t: string, r: string)
    requires |t| <= |s| && t == s[|s| - |t|..]
    requires forall k :: 0 <= k < |s| - |t| ==> IsWhiteSpace(s[k])
    requires |r| <= |t| && r == t[..|r|]
    requires forall k :: |r| <= k < |t| ==> IsWhiteSpace(t[k])
    ensures PaddedAt(s, r, |s| - |t|)
  {
    var off := |s| - |t|;
    assert s[off..][..|r|] == s[off..off + |r|];
    forall k | off + |r| <= k < |s|
      ensures IsWhiteSpace(s[k])
    {
      assert s[k] == t[k - off];
    }
  }

  /**
   * `s.trim()`: a contiguous piece of `s` that neither starts nor ends with
   * white space, and outside of which `s` holds only white space.
   */
  function Trim(s: string): (r: string)
    ensures Contains(s, r)
    ensures r == [] || (!IsWhiteSpace(r[0]) && !IsWhiteSpace(r[|r| - 1]))
    ensures exists off | 0 <= off <= |s| - |r| :: PaddedAt(s, r, off)
  {
    var t := TrimStart(s);
    var r := TrimEnd(t);
    PaddedPiece(s, t, r);
    assert OccursAt(s, r, |s| - |t|);
    assert r == [] || r[0] == t[0];
    r
  }

  /** A string trims to "" exactly when every character of it is white space. */
  lemma TrimEmptyIffBlank(s: string)
    ensures Trim(s) == "" <==> forall k :: 0 <= k < |s| ==> IsWhiteSpace(s[k])
  {
  }
}
