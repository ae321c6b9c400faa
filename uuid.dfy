/**
 * The book-id format check used by the single-book fetch: the pattern
 * `^[0-9a-fA-F]{8}-[0-9a-fA-F]{4}-[0-9a-fA-F]{4}-[0-9a-fA-F]{4}-[0-9a-fA-F]{12}$`,
 * i.e. the textual layout of a UUID in section 3 of RFC 4122, in either case.
 * Version and variant digits are not inspected.
 */
module Uuid {

  /** One character of the class `[0-9a-fA-F]`. */
  predicate IsHexDigit(c: char) {
    ('0' <= c <= '9') || ('a' <= c <= 'f') || ('A' <= c <= 'F')
  }

  /** `[0-9a-fA-F]*` */
  predicate HexRun(s: string) {
    forall i :: 0 <= i < |s| ==> IsHexDigit(s[i])
  }

  /** Lengths of the hex groups of the pattern, which are separated by single hyphens. */
  const Groups: seq<nat> := [8, 4, 4, 4, 12]

  /**
   * The anchored pattern `^H{g0}-H{g1}-...-H{gk}$` for `groups == [g0, ..., gk]`
   * (`H` the hex class); with no group, the pattern `^$`.
   */
  predicate MatchGroups(s: string, groups: seq<nat>)
    decreases |groups|
  {
    if groups == [] then s == []
    else
      var n := groups[0];
      if |groups| == 1 then |s| == n && HexRun(s)
      else n < |s| && HexRun(s[..n]) && s[n] == '-' && MatchGroups(s[n + 1..], groups[1..])
  }

  /** `isValidUUID`: the whole string matches the UUID pattern. */
  predicate IsValidUuid(s: string) {
    MatchGroups(s, Groups)
  }

  /** Length of every string the pattern for `groups` accepts. */
  function Width(groups: seq<nat>): nat {
    if groups == [] then 0
    else if |groups| == 1 then groups[0]
    else groups[0] + 1 + Width(groups[1..])
  }

  /** Position `i` of a string accepted by the pattern for `groups` holds a hyphen. */
  predicate IsSeparator(groups: seq<nat>, i: int)
    decreases |groups|
  {
    |groups| > 1 && (i == groups[0] || (i > groups[0] && IsSeparator(groups[1..], i - groups[0] - 1)))
  }

  /** The character layout that the pattern for `groups` describes, position by position. */
  predicate Layout(s: string, groups: seq<nat>) {
    && |s| == Width(groups)
    && forall i :: 0 <= i < |s| ==> if IsSeparator(groups, i) then s[i] == '-' else IsHexDigit(s[i])
  }

  /** The group-by-group pattern accepts exactly the strings with its character layout. */
  lemma {:induction false} MatchGroupsLayout(s: string, groups: seq<nat>)
    requires groups != []
    ensures MatchGroups(s, groups) <==> Layout(s, groups)
    decreases |groups|
  {
    var n := groups[0];
    if |groups| == 1 {
      assert forall i :: !IsSeparator(groups, i);
    } else {
      var rest := groups[1..];
      if n < |s| {
        var t := s[n + 1..];
        MatchGroupsLayout(t, rest);
        assert forall i :: n < i < |s| ==> s[i] == t[i - n - 1];
        assert forall i :: n < i ==> (IsSeparator(groups, i) <==> IsSeparator(rest, i - n - 1));
        if MatchGroups(s, groups) {
          forall i | 0 <= i < |s|
            ensures if IsSeparator(groups, i) then s[i] == '-' else IsHexDigit(s[i])
          {
            if i < n {
              assert s[i] == s[..n][i];
            } else if i > n {
              assert 0 <= i - n - 1 < |t|;
            }
          }
        }
        if Layout(s, groups) {
          forall i | 0 <= i < n ensures IsHexDigit(s[..n][i]) {
            assert !IsSeparator(groups, i);
          }
          forall j | 0 <= j < |t|
            ensures if IsSeparator(rest, j) then t[j] == '-' else IsHexDigit(t[j])
          {
            assert IsSeparator(groups, j + n + 1) <==> IsSeparator(rest, j);
          }
        }
      }
    }
  }

  /** A position of a UUID that holds a hyphen. */
  predicate IsHyphenPosition(i: int) {
    i == 8 || i == 13 || i == 18 || i == 23
  }

  /**
   * `isValidUUID(s)` holds exactly when `s` has 36 characters, hyphens at
   * positions 8, 13, 18 and 23, and a hex digit (either case) everywhere else.
   */
  lemma UuidLayout(s: string)
    ensures IsValidUuid(s) <==>
      && |s| == 36
      && forall i :: 0 <= i < |s| ==> if IsHyphenPosition(i) then s[i] == '-' else IsHexDigit(s[i])
  {
    MatchGroupsLayout(s, Groups);
    assert Width(Groups) == 36;
    assert forall i :: IsSeparator(Groups, i) <==> IsHyphenPosition(i);
  }

  /** Ids without the hyphenated layout are refused. */
  lemma UuidRejected()
    ensures !IsValidUuid("not-a-uuid")
    ensures !IsValidUuid("123e4567e89b12d3a456426614174000")
  {
    UuidLayout("not-a-uuid");
    UuidLayout("123e4567e89b12d3a456426614174000");
  }
}
