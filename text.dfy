/**
 * The three string operations the catalogue search relies on, as JavaScript
 * defines them: `String.prototype.trim`, `String.prototype.toLowerCase`
 * (restricted to ASCII letters) and `String.prototype.includes`.
 */
module Text {

  /** The WhiteSpace and LineTerminator code points that `trim` removes. */
  predicate IsSpace(c: char) {
    c == ' ' || c == '\t' || c == '\n' || c == '\r' || c == '\U{000B}' || c == '\U{000C}' ||
    c == '\U{00A0}' || c == '\U{1680}' || ('\U{2000}' <= c <= '\U{200A}') ||
    c == '\U{2028}' || c == '\U{2029}' || c == '\U{202F}' || c == '\U{205F}' ||
    c == '\U{3000}' || c == '\U{FEFF}'
  }

  /** Drops leading white space. */
  function TrimStart(s: string): string {
    if s != [] && IsSpace(s[0]) then TrimStart(s[1..]) else s
  }

  /** Drops trailing white space. */
  function TrimEnd(s: string): string {
    if s != [] && IsSpace(s[|s| - 1]) then TrimEnd(s[..|s| - 1]) else s
  }

  /** `s.trim()`. */
  function Trim(s: string): string {
    TrimEnd(TrimStart(s))
  }

  /** `TrimStart` keeps a suffix of `s` that does not start with white space, and
      everything it cuts off is white space. */
  lemma {:induction false} TrimStartCuts(s: string)
    ensures |TrimStart(s)| <= |s| && TrimStart(s) == s[|s| - |TrimStart(s)|..]
    ensures forall i :: 0 <= i < |s| - |TrimStart(s)| ==> IsSpace(s[i])
    ensures TrimStart(s) != [] ==> !IsSpace(TrimStart(s)[0])
  {
    if s != [] && IsSpace(s[0]) {
      var t := TrimStart(s[1..]);
      TrimStartCuts(s[1..]);
      assert TrimStart(s) == t;
      assert s[1..][|s| - 1 - |t|..] == s[|s| - |t|..];
      forall i | 1 <= i < |s| - |t| ensures IsSpace(s[i]) {
        assert s[i] == s[1..][i - 1];
      }
    }
  }

  /** `TrimEnd` keeps a prefix of `s` that does not end with white space, and
      everything it cuts off is white space. */
  lemma {:induction false} TrimEndCuts(s: string)
    ensures |TrimEnd(s)| <= |s| && TrimEnd(s) == s[..|TrimEnd(s)|]
    ensures forall i :: |TrimEnd(s)| <= i < |s| ==> IsSpace(s[i])
    ensures TrimEnd(s) != [] ==> !IsSpace(TrimEnd(s)[|TrimEnd(s)| - 1])
  {
    if s != [] && IsSpace(s[|s| - 1]) {
      var t := TrimEnd(s[..|s| - 1]);
      TrimEndCuts(s[..|s| - 1]);
      assert TrimEnd(s) == t;
      assert s[..|s| - 1][..|t|] == s[..|t|];
    }
  }

  /** A non-empty trimmed string neither starts nor ends with white space. */
  lemma TrimEnds(s: string)
    ensures |Trim(s)| <= |s|
    ensures Trim(s) != [] ==> !IsSpace(Trim(s)[0]) && !IsSpace(Trim(s)[|Trim(s)| - 1])
  {
    TrimStartCuts(s);
    TrimEndCuts(TrimStart(s));
  }

  /** A string trims to "" exactly when it is empty or made only of white space. */
  lemma TrimBlankIff(s: string)
    ensures Trim(s) == [] <==> forall i :: 0 <= i < |s| ==> IsSpace(s[i])
  {
    TrimStartCuts(s);
    TrimEndCuts(TrimStart(s));
  }

  /** ASCII case folding of one character; every other character is left alone. */
  function LowerChar(c: char): char {
    if 'A' <= c <= 'Z' then (c as int - 'A' as int + 'a' as int) as char else c
  }

  /** `s.toLowerCase()` on ASCII letters: same length, no upper-case letter left. */
  function ToLower(s: string): (r: string)
    ensures |r| == |s|
    ensures forall i :: 0 <= i < |s| ==> !('A' <= r[i] <= 'Z')
  {
    seq(|s|, i requires 0 <= i < |s| => LowerChar(s[i]))
  }

  /** `a` and `b` differ at most in the ASCII case of their letters: at each position the
      characters are equal, or one is a capital A-Z and the other lies 32 code points above it. */
  predicate SameUpToCase(a: string, b: string) {
    |a| == |b| &&
    forall i :: 0 <= i < |a| ==>
      a[i] == b[i] ||
      ('A' <= a[i] <= 'Z' && b[i] as int == a[i] as int + 32) ||
      ('A' <= b[i] <= 'Z' && a[i] as int == b[i] as int + 32)
  }

  /** Two strings lower-case to the same string exactly when they differ at most in
      ASCII case: this is what makes a comparison after `toLowerCase` case-insensitive. */
  lemma ToLowerSameIff(a: string, b: string)
    ensures ToLower(a) == ToLower(b) <==> SameUpToCase(a, b)
  {
    if ToLower(a) == ToLower(b) {
      forall i | 0 <= i < |a| ensures LowerChar(a[i]) == LowerChar(b[i]) {
        assert ToLower(a)[i] == ToLower(b)[i];
      }
    }
  }

  /** Case folding does not turn a white-space character into another one, nor the reverse. */
  lemma LowerKeepsSpace(s: string)
    ensures forall i :: 0 <= i < |s| ==> (IsSpace(ToLower(s)[i]) <==> IsSpace(s[i]))
  {
  }

  /** `needle` occurs in `s` starting at index `i`. */
  predicate OccursAt(s: string, needle: string, i: nat) {
    i + |needle| <= |s| && s[i..i + |needle|] == needle
  }

  /** `s.includes(needle)`: tries every start position from the left. */
  function Contains(s: string, needle: string): bool
    decreases |s|
  {
    if OccursAt(s, needle, 0) then true
    else if s == [] then false
    else Contains(s[1..], needle)
  }

  /** An occurrence in the tail is an occurrence in the whole string one position later. */
  lemma OccursShift(s: string, needle: string, i: nat)
    requires s != []
    ensures OccursAt(s[1..], needle, i) <==> OccursAt(s, needle, i + 1)
  {
  }

  /** `Contains` holds exactly when `needle` occurs somewhere in `s` (the empty needle always does). */
  lemma {:induction false} ContainsIff(s: string, needle: string)
    ensures Contains(s, needle) <==> exists i :: 0 <= i <= |s| && OccursAt(s, needle, i)
    decreases |s|
  {
    if OccursAt(s, needle, 0) {
    } else if s == [] {
    } else {
      ContainsIff(s[1..], needle);
      if Contains(s, needle) {
        var j :| 0 <= j <= |s[1..]| && OccursAt(s[1..], needle, j);
        OccursShift(s, needle, j);
      }
      if exists i :: 0 <= i <= |s| && OccursAt(s, needle, i) {
        var i :| 0 <= i <= |s| && OccursAt(s, needle, i);
        assert i != 0;
        OccursShift(s, needle, i - 1);
      }
    }
  }

  /** A needle longer than the text is never found. */
  lemma ContainsTooLong(s: string, needle: string)
    requires |s| < |needle|
    ensures !Contains(s, needle)
  {
  }

  /** A needle whose first character does not occur in the text is never found. */
  lemma ContainsNeedsFirstChar(s: string, needle: string)
    requires needle != [] && needle[0] !in s
    ensures !Contains(s, needle)
  {
  }
}
