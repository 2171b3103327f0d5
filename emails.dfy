/** The two e-mail formats the backend checks with regular expressions,
    written out as predicates over the characters of the address. */
module EmailFormats {
  import opened Common

  /** A character of `[^\s@]`. */
  predicate MemberChar(c: char) {
    !IsSpace(c) && c != '@'
  }

  /** The borrow form's `/^[^\s@]+@[^\s@]+\.[^\s@]+$/`: a non-empty local
      part, one `@`, then a domain holding a `.` that is neither its first nor
      its last character; no white space and no second `@` anywhere. */
  predicate MemberEmailOk(s: string) {
    exists i, j :: 0 < i < j < |s| - 1 && i + 1 < j && s[i] == '@' && s[j] == '.'
      && forall k :: 0 <= k < |s| && k != i ==> MemberChar(s[k])
  }

  /** An address the borrow form accepts holds no white space, so trimming
      it changes nothing. */
  lemma MemberEmailHasNoSpace(s: string)
    requires MemberEmailOk(s)
    ensures NoSpace(s)
  {
    var i, j :| 0 < i < j < |s| - 1 && i + 1 < j && s[i] == '@' && s[j] == '.'
      && forall k :: 0 <= k < |s| && k != i ==> MemberChar(s[k]);
    forall k | 0 <= k < |s| ensures !IsSpace(s[k]) {
      if k != i {
        assert MemberChar(s[k]);
      }
    }
  }

  /** A character of `\w`. */
  predicate WordChar(c: char) {
    ('a' <= c <= 'z') || ('A' <= c <= 'Z') || ('0' <= c <= '9') || c == '_'
  }

  predicate Separator(c: char) {
    c == '.' || c == '-'
  }

  /** `\w+([.-]?\w+)*`: word characters, single `.` or `-` between runs of
      them, starting and ending with a word character. */
  predicate WordChain(s: string) {
    |s| >= 1 && WordChar(s[0]) && WordChar(s[|s| - 1])
    && (forall k :: 0 <= k < |s| ==> WordChar(s[k]) || Separator(s[k]))
    && (forall i, j :: 0 <= i < |s| && 0 <= j < |s| && j == i + 1 ==> WordChar(s[i]) || WordChar(s[j]))
  }

  /** The account schema's `/^\w+([.-]?\w+)*@\w+([.-]?\w+)*(\.\w{2,3})+$/`:
      a word chain, `@`, a word chain, then a final `.` followed by two or
      three word characters. */
  predicate AccountEmailOk(s: string) {
    exists i, j :: 0 < i < j < |s| && s[i] == '@' && s[j] == '.'
      && WordChain(s[..i]) && WordChain(s[i + 1..j])
      && 2 <= |s| - j - 1 <= 3
      && forall k :: j < k < |s| ==> WordChar(s[k])
  }

  /** `String.prototype.toLowerCase`, for the ASCII letters. */
  function LowerChar(c: char): char {
    if 'A' <= c <= 'Z' then (c as int - 'A' as int + 'a' as int) as char else c
  }

  function ToLower(s: string): (r: string)
    ensures |r| == |s|
    ensures forall k :: 0 <= k < |s| ==> r[k] == LowerChar(s[k])
  {
    if s == [] then [] else [LowerChar(s[0])] + ToLower(s[1..])
  }

  /** No upper-case ASCII letter. */
  predicate IsLowerCase(s: string) {
    forall k :: 0 <= k < |s| ==> !('A' <= s[k] <= 'Z')
  }

  /** Lower-casing leaves no upper-case letter, and changes nothing in a
      string that has none. */
  lemma ToLowerIsLowerCase(s: string)
    ensures IsLowerCase(ToLower(s))
    ensures IsLowerCase(s) ==> ToLower(s) == s
  {
  }

  /** Lower-casing is idempotent, so an address stored lower-cased is found
      again by a query that lower-cases its argument. */
  lemma ToLowerIdempotent(s: string)
    ensures ToLower(ToLower(s)) == ToLower(s)
  {
  }
}
