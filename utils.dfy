/**
 * The two shared string helpers: the member filter used by the member
 * lists and the player picker, and the capitalisation of enum names for
 * display.
 */
module Utils {
  import opened Text
  import opened Types

  /** The query a filter text stands for: trimmed and lower-cased. */
  function Query(filter: string): string {
    Lower(Trim(filter))
  }

  /**
   * `memberMatchesFilter`: an empty query matches everyone; otherwise the
   * query must occur in the lower-cased first name, last name, or
   * "first last".
   */
  predicate MemberMatchesFilter(m: Member, filter: string) {
    var q := Query(filter);
    var first := Lower(m.first_name);
    var last := Lower(m.last_name);
    q == "" || Contains(first, q) || Contains(last, q) || Contains(first + " " + last, q)
  }

  /** A filter that is empty after trimming matches every member. */
  lemma BlankFilterMatchesAll(m: Member, filter: string)
    requires AllSpace(filter)
    ensures MemberMatchesFilter(m, filter)
  {
    TrimEmptyIffAllSpace(filter);
  }

  /** The separate first- and last-name tests add nothing to the full-name test. */
  lemma MatchesFullName(m: Member, filter: string)
    ensures MemberMatchesFilter(m, filter) <==>
            Query(filter) == "" || Contains(Lower(m.first_name) + " " + Lower(m.last_name), Query(filter))
  {
    var q := Query(filter);
    var first := Lower(m.first_name);
    var last := Lower(m.last_name);
    if Contains(first, q) {
      ContainsLeft(first, " " + last, q);
      assert first + (" " + last) == first + " " + last;
    }
    if Contains(last, q) {
      ContainsRight(first + " ", last, q);
    }
  }

  /** Upper-casing the filter does not change what it matches. */
  lemma MatchIgnoresCase(m: Member, filter: string)
    ensures MemberMatchesFilter(m, Upper(filter)) == MemberMatchesFilter(m, filter)
  {
    TrimUpper(filter);
    LowerUpper(Trim(filter));
  }

  /** Whitespace around the filter does not change what it matches. */
  lemma MatchIgnoresSurroundingSpace(m: Member, filter: string, pre: string, post: string)
    requires AllSpace(pre) && AllSpace(post)
    ensures MemberMatchesFilter(m, pre + filter + post) == MemberMatchesFilter(m, filter)
  {
    TrimSurrounding(filter, pre, post);
  }

  /** `normalizeString`: trimmed, lower-cased, first character upper-cased. */
  function NormalizeString(s: string): (r: string)
    ensures |r| == |Trim(s)|
    ensures |r| > 0 ==> r[0] == UpperChar(LowerChar(Trim(s)[0]))
    ensures forall i :: 1 <= i < |r| ==> r[i] == LowerChar(Trim(s)[i])
  {
    var t := Lower(Trim(s));
    if |t| == 0 then "" else [UpperChar(t[0])] + t[1..]
  }

  /** A blank string normalises to the empty string. */
  lemma NormalizeBlank(s: string)
    ensures NormalizeString(s) == "" <==> AllSpace(s)
  {
    TrimEmptyIffAllSpace(s);
  }

  /** Normalising twice is normalising once. */
  lemma NormalizeIdempotent(s: string)
    ensures NormalizeString(NormalizeString(s)) == NormalizeString(s)
  {
    var t := Lower(Trim(s));
    var r := NormalizeString(s);
    if |t| > 0 {
      var n := |t|;
      LowerCharSpace(Trim(s)[0]);
      LowerCharSpace(Trim(s)[n - 1]);
      UpperCharSpace(t[0]);
      assert !IsSpace(r[0]);
      assert !IsSpace(r[n - 1]);
      TrimmedAlready(r);
      LowerIdempotent(Trim(s));
      assert Lower(r) == t by {
        assert Lower(r)[0] == LowerChar(UpperChar(t[0])) == t[0];
        assert forall i :: 1 <= i < n ==> Lower(r)[i] == LowerChar(t[i]) == t[i];
      }
    }
  }

  /** An upper-case enum name keeps its first letter and lowers the rest. */
  lemma NormalizeUpperWord(s: string)
    requires |s| > 0 && forall i :: 0 <= i < |s| ==> 'A' <= s[i] <= 'Z'
    ensures |NormalizeString(s)| == |s|
    ensures NormalizeString(s)[0] == s[0]
    ensures forall i :: 1 <= i < |s| ==> NormalizeString(s)[i] == LowerChar(s[i]) && 'a' <= NormalizeString(s)[i] <= 'z'
  {
    assert !IsSpace(s[0]) && !IsSpace(s[|s| - 1]);
    TrimmedAlready(s);
  }
}
