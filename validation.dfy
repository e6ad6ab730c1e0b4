/**
 * The string checks of server.js: the custom-code pattern `^[A-Za-z0-9]{6,8}$`,
 * the scheme test of `isValidUrl`, and `String.prototype.trim`, which the
 * create handler applies to both request fields before validating them.
 */
module Validation {
  import opened Wrappers

  /** The character class `[A-Za-z0-9]`. */
  predicate IsCodeChar(c: char) {
    ('A' <= c <= 'Z') || ('a' <= c <= 'z') || ('0' <= c <= '9')
  }

  /** How many characters of the class `[A-Za-z0-9]` follow the start anchor. */
  function CodeCharRun(s: string): (n: nat)
    ensures n <= |s|
    ensures forall i :: 0 <= i < n ==> IsCodeChar(s[i])
    ensures n < |s| ==> !IsCodeChar(s[n])
  {
    if s == [] || !IsCodeChar(s[0]) then 0 else 1 + CodeCharRun(s[1..])
  }

  /**
   * `isValidCode`: the pattern `^[A-Za-z0-9]{6,8}$`. The bounded quantifier
   * takes as many class characters as it may (at most 8), needs at least 6,
   * and the end anchor must then stand at the end of the string; taking fewer
   * never helps, since the anchor needs the end of the input.
   */
  predicate IsValidCode(code: string)
    ensures IsValidCode(code) <==>
      6 <= |code| <= 8 && forall i :: 0 <= i < |code| ==> IsCodeChar(code[i])
  {
    var taken := if CodeCharRun(code) < 8 then CodeCharRun(code) else 8;
    6 <= taken && taken == |code|
  }

  /** The health-check path `healthz` is itself a valid custom code. */
  lemma HealthzIsValidCode()
    ensures IsValidCode("healthz")
  {
  }

  /**
   * `isValidUrl`, given what the WHATWG URL parser reports for the string:
   * `None` when `new URL(str)` throws, otherwise the `protocol` property.
   */
  predicate IsValidUrl(protocol: Option<string>): (ok: bool)
    ensures protocol.None? ==> !ok
    ensures ok ==> 5 <= |protocol.value| <= 6 && protocol.value[..4] == "http" && protocol.value[|protocol.value| - 1] == ':'
    ensures ok ==> |protocol.value| == 5 || protocol.value[4] == 's'
    ensures protocol == Some("http:") || protocol == Some("https:") ==> ok
  {
    match protocol
    case None => false
    case Some(p) => p == "http:" || p == "https:"
  }

  /**
   * The characters `String.prototype.trim` strips: ECMAScript WhiteSpace
   * (TAB, VT, FF, SP, NBSP, ZWNBSP and the Space_Separator category) and
   * LineTerminator (LF, CR, LS, PS).
   */
  predicate IsTrimmable(c: char) {
    var n := c as int;
    n == 0x09 || n == 0x0A || n == 0x0B || n == 0x0C || n == 0x0D || n == 0x20 ||
    n == 0xA0 || n == 0x1680 || (0x2000 <= n <= 0x200A) || n == 0x2028 ||
    n == 0x2029 || n == 0x202F || n == 0x205F || n == 0x3000 || n == 0xFEFF
  }

  /** How many trimmable characters `s` starts with. */
  function LeadingBlanks(s: string): (n: nat)
    ensures n <= |s|
    ensures forall i :: 0 <= i < n ==> IsTrimmable(s[i])
    ensures n < |s| ==> !IsTrimmable(s[n])
  {
    if s == [] || !IsTrimmable(s[0]) then 0 else 1 + LeadingBlanks(s[1..])
  }

  /** How many trimmable characters `s` ends with. */
  function TrailingBlanks(s: string): (n: nat)
    ensures n <= |s|
    ensures forall i :: |s| - n <= i < |s| ==> IsTrimmable(s[i])
    ensures n < |s| ==> !IsTrimmable(s[|s| - n - 1])
  {
    if s == [] || !IsTrimmable(s[|s| - 1]) then 0 else 1 + TrailingBlanks(s[..|s| - 1])
  }

  /** Strips the leading trimmable characters: what is left is a suffix of `s`. */
  function TrimStart(s: string): (r: string)
    ensures |r| <= |s| && r == s[|s| - |r|..]
    ensures forall i :: 0 <= i < |s| - |r| ==> IsTrimmable(s[i])
    ensures r != [] ==> !IsTrimmable(r[0])
  {
    s[LeadingBlanks(s)..]
  }

  /** Strips the trailing trimmable characters: what is left is a prefix of `s`. */
  function TrimEnd(s: string): (r: string)
    ensures |r| <= |s| && r == s[..|r|]
    ensures forall i :: |r| <= i < |s| ==> IsTrimmable(s[i])
    ensures r != [] ==> !IsTrimmable(r[|r| - 1])
  {
    s[..|s| - TrailingBlanks(s)]
  }

  /**
   * `String.prototype.trim`: the result is the slice of `s` that starts
   * after its leading blanks, everything after the slice is trimmable, and
   * a kept result begins and ends with a character that is not.
   */
  function Trim(s: string): (r: string)
    ensures LeadingBlanks(s) + |r| <= |s| && r == s[LeadingBlanks(s)..LeadingBlanks(s) + |r|]
    ensures forall i :: LeadingBlanks(s) + |r| <= i < |s| ==> IsTrimmable(s[i])
    ensures r != [] ==> !IsTrimmable(r[0]) && !IsTrimmable(r[|r| - 1])
  {
    var t := TrimStart(s);
    var kept := TrimEnd(t);
    assert forall i :: LeadingBlanks(s) + |kept| <= i < |s| ==> s[i] == t[i - LeadingBlanks(s)];
    kept
  }

  /** Trimming leaves nothing exactly when every character is trimmable. */
  lemma TrimEmptyIffBlank(s: string)
    ensures Trim(s) == [] <==> forall i :: 0 <= i < |s| ==> IsTrimmable(s[i])
  {
    var t := TrimStart(s);
    // an empty result means TrimStart already consumed everything
    assert Trim(s) == [] ==> t == [];
  }

  /** A string that neither starts nor ends with a trimmable character is its own trim. */
  lemma TrimOfTrimmed(s: string)
    requires s != [] ==> !IsTrimmable(s[0]) && !IsTrimmable(s[|s| - 1])
    ensures Trim(s) == s
  {
    if s != [] {
      assert TrimStart(s) == s;
      assert TrimEnd(s) == s;
    }
  }

  /** Trimming twice is trimming once. */
  lemma TrimIdempotent(s: string)
    ensures Trim(Trim(s)) == Trim(s)
  {
    TrimOfTrimmed(Trim(s));
  }

  /** A code that passes `isValidCode` has nothing to trim. */
  lemma ValidCodeIsTrimmed(code: string)
    requires IsValidCode(code)
    ensures !IsTrimmable(code[0]) && !IsTrimmable(code[|code| - 1])
    ensures Trim(code) == code
  {
    TrimOfTrimmed(code);
  }
}
