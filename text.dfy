/** The `java.lang.String` operations the services use, restricted to ASCII. */
module Text {

  /** `String.trim` drops every leading and trailing char whose code is at most U+0020. */
  predicate IsTrimmable(c: char) {
    c <= ' '
  }

  /** `Character.isWhitespace` on ASCII: tab, line feed, vertical tab, form feed,
      carriage return, the separators U+001C..U+001F and space. */
  predicate IsWhitespace(c: char) {
    (9 <= c as int <= 13) || (28 <= c as int <= 32)
  }

  /** No trimmable char at either end. */
  predicate IsTrimmed(s: string) {
    s == [] || (!IsTrimmable(s[0]) && !IsTrimmable(s[|s| - 1]))
  }

  /** The index of the first char that is not trimmable (`|s|` when there is none). */
  function TrimStartIndex(s: string, st: nat := 0): (i: nat)
    requires st <= |s|
    requires forall k :: 0 <= k < st ==> IsTrimmable(s[k])
    ensures st <= i <= |s|
    ensures forall k :: 0 <= k < i ==> IsTrimmable(s[k])
    ensures i == |s| || !IsTrimmable(s[i])
    decreases |s| - st
  {
    if st < |s| && IsTrimmable(s[st]) then TrimStartIndex(s, st + 1) else st
  }

  /** Moves `len` back over trimmable chars, never below `st`. */
  function TrimEndIndex(s: string, st: nat, len: nat): (e: nat)
    requires st <= len <= |s|
    ensures st <= e <= len
    ensures forall k :: e <= k < len ==> IsTrimmable(s[k])
    ensures e == st || !IsTrimmable(s[e - 1])
  {
    if st < len && IsTrimmable(s[len - 1]) then TrimEndIndex(s, st, len - 1) else len
  }

  /** `String.trim`: the infix `s[i..e]` where `i` skips the leading trimmable
      chars and `e` stops before the trailing ones. */
  function Trim(s: string): (r: string)
    ensures IsTrimmed(r)
    ensures var i := TrimStartIndex(s);
      && i + |r| <= |s|
      && r == s[i..i + |r|]
      && (forall k :: 0 <= k < i ==> IsTrimmable(s[k]))
      && (forall k :: i + |r| <= k < |s| ==> IsTrimmable(s[k]))
  {
    var i := TrimStartIndex(s);
    var e := TrimEndIndex(s, i, |s|);
    s[i..e]
  }

  lemma TrimmedIsFixed(s: string)
    requires IsTrimmed(s)
    ensures Trim(s) == s
  {
  }

  /** Trimming twice is trimming once. */
  lemma TrimIdempotent(s: string)
    ensures Trim(Trim(s)) == Trim(s)
  {
    TrimmedIsFixed(Trim(s));
  }

  /** `Character.toLowerCase` on ASCII: only 'A'..'Z' change. */
  function LowerChar(c: char): char {
    if 'A' <= c <= 'Z' then (c as int + 32) as char else c
  }

  predicate IsUpper(c: char) {
    'A' <= c <= 'Z'
  }

  /** `String.toLowerCase`: the same chars with each upper-case letter lowered. */
  function ToLower(s: string): (r: string)
    ensures |r| == |s|
    ensures forall i :: 0 <= i < |s| ==> !IsUpper(r[i])
    ensures forall i :: 0 <= i < |s| && !IsUpper(s[i]) ==> r[i] == s[i]
    ensures forall i :: 0 <= i < |s| && IsUpper(s[i]) ==> r[i] as int == s[i] as int + 32
  {
    seq(|s|, i requires 0 <= i < |s| => LowerChar(s[i]))
  }

  /** Lowering twice is lowering once. */
  lemma ToLowerIdempotent(s: string)
    ensures ToLower(ToLower(s)) == ToLower(s)
  {
  }

  /** `String.isBlank`: empty or nothing but white space. White space is
      trimmable, so a blank string trims to the empty string (the converse
      fails for control chars such as U+0000). */
  predicate IsBlank(s: string)
    ensures IsBlank(s) ==> Trim(s) == []
  {
    forall i :: 0 <= i < |s| ==> IsWhitespace(s[i])
  }

  /** `String.startsWith`: the string is the prefix followed by the rest. */
  predicate StartsWith(s: string, prefix: string)
    ensures StartsWith(s, prefix) ==> |prefix| <= |s| && s == prefix + s[|prefix|..]
    ensures forall rest :: s == prefix + rest ==> StartsWith(s, prefix)
  {
    |prefix| <= |s| && s[..|prefix|] == prefix
  }

  /** `String.equalsIgnoreCase` on ASCII: same length, and the chars at each
      position equal once lowered. */
  predicate EqualsIgnoreCase(a: string, b: string)
    ensures EqualsIgnoreCase(a, b) <==>
      |a| == |b| && forall i :: 0 <= i < |a| ==> LowerChar(a[i]) == LowerChar(b[i])
  {
    ToLower(a) == ToLower(b)
  }

  /** The form in which an email is stored and looked up: `email.trim().toLowerCase()`. */
  function NormalizeEmail(email: string): (r: string)
    ensures IsNormalizedEmail(r)
    ensures |r| <= |email|
  {
    var t := Trim(email);
    var n := ToLower(t);
    // Lowering maps trimmable chars to themselves and others to non-trimmable ones.
    assert IsTrimmed(n) by {
      if n != [] {
        assert !IsTrimmable(t[0]) && !IsTrimmable(t[|t| - 1]);
      }
    }
    n
  }

  predicate IsNormalizedEmail(e: string) {
    IsTrimmed(e) && forall i :: 0 <= i < |e| ==> !IsUpper(e[i])
  }

  /** Normalising an email twice is normalising it once. */
  lemma {:induction false} NormalizeEmailIdempotent(email: string)
    ensures NormalizeEmail(NormalizeEmail(email)) == NormalizeEmail(email)
  {
    NormalizedIsFixed(NormalizeEmail(email));
  }

  /** A normalised email is its own normal form. */
  lemma NormalizedIsFixed(e: string)
    requires IsNormalizedEmail(e)
    ensures NormalizeEmail(e) == e
  {
    TrimmedIsFixed(e);
  }
}
