/** Qualified names: components separated by dots. */
module DottedNames {

  /** std::string::find_last_of('.'), with -1 for npos. */
  function LastDot(s: string): (r: int)
    ensures -1 <= r < |s|
    ensures r >= 0 ==> s[r] == '.'
    ensures forall i :: r < i < |s| ==> s[i] != '.'
  {
    if s == "" then -1
    else if s[|s| - 1] == '.' then |s| - 1
    else LastDot(s[..|s| - 1])
  }

  /** std::string::find_first_of('.'), with -1 for npos. */
  function FirstDot(s: string): (r: int)
    ensures -1 <= r < |s|
    ensures r >= 0 ==> s[r] == '.'
    ensures forall i :: 0 <= i < (if r < 0 then |s| else r) ==> s[i] != '.'
  {
    if s == "" then -1
    else if s[0] == '.' then 0
    else
      var r := FirstDot(s[1..]);
      assert forall i :: 0 < i < |s| ==> s[i] == s[1..][i - 1];
      if r < 0 then -1 else r + 1
  }

  /** Letters, digits and underscores, at least one. */
  predicate IsIdentifier(name: string)
  {
    name != "" && forall i :: 0 <= i < |name| ==> IsIdentifierChar(name[i])
  }

  predicate IsIdentifierChar(c: char)
  {
    'a' <= c <= 'z' || 'A' <= c <= 'Z' || '0' <= c <= '9' || c == '_'
  }

  /** The dotted prefixes of a name are its parent and the parent's dotted prefixes. */
  lemma PrefixesOfParent(name: string, i: nat)
    requires i < |name| && name[i] == '.'
    ensures LastDot(name) >= i
    ensures i < LastDot(name) ==> name[..LastDot(name)][i] == '.' && name[..LastDot(name)][..i] == name[..i]
  {
  }
}
