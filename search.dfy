/**
 * The search box: SQLAlchemy's `ilike(f'%{search}%')` on SQLite, which is
 * `lower(column) LIKE lower(pattern)`. SQLite's `lower` folds ASCII letters only,
 * and in a LIKE pattern `%` matches any run of characters and `_` any one
 * character; there is no escape character, so both stay wildcards when the user
 * types them.
 */
module Search {

  function LowerChar(c: char): char {
    if 'A' <= c <= 'Z' then (c as int + 32) as char else c
  }

  /** SQLite's `lower` without the ICU extension. */
  function Lower(s: string): (r: string)
    ensures |r| == |s|
    ensures forall i :: 0 <= i < |s| ==> r[i] == LowerChar(s[i])
  {
    seq(|s|, i requires 0 <= i < |s| => LowerChar(s[i]))
  }

  /** The LIKE operator: does `s` match `pattern`? */
  predicate Like(s: string, pattern: string)
    decreases |pattern| + |s|
  {
    if pattern == [] then s == []
    else if pattern[0] == '%' then Like(s, pattern[1..]) || (s != [] && Like(s[1..], pattern))
    else s != [] && (pattern[0] == '_' || pattern[0] == s[0]) && Like(s[1..], pattern[1..])
  }

  /** `column.ilike('%' + term + '%')`. */
  predicate ILikeContains(column: string, term: string) {
    Like(Lower(column), Lower("%" + term + "%"))
  }

  predicate NoWildcards(term: string) {
    '%' !in term && '_' !in term
  }

  /** `term` occurs in `s` as a contiguous run. */
  predicate Occurs(term: string, s: string) {
    exists i :: 0 <= i <= |s| && term <= s[i..]
  }

  lemma {:induction false} LikeAnyRest(s: string)
    ensures Like(s, "%")
  {
    if s != [] {
      LikeAnyRest(s[1..]);
    }
  }

  /** Without wildcards, `term%` matches exactly the texts that start with `term`. */
  lemma {:induction false} LikePrefix(s: string, term: string)
    requires NoWildcards(term)
    ensures Like(s, term + "%") <==> term <= s
  {
    if term == [] {
      assert term + "%" == "%";
      LikeAnyRest(s);
    } else {
      assert (term + "%")[1..] == term[1..] + "%";
      if s != [] {
        LikePrefix(s[1..], term[1..]);
      }
    }
  }

  /** A leading `%` tries every suffix of the text. */
  lemma {:induction false} LikeLeadingPercent(s: string, rest: string)
    ensures Like(s, "%" + rest) <==> exists i :: 0 <= i <= |s| && Like(s[i..], rest)
  {
    assert ("%" + rest)[1..] == rest;
    if s == [] {
      assert s[0..] == s;
    } else {
      LikeLeadingPercent(s[1..], rest);
      if Like(s, "%" + rest) {
        if Like(s, rest) {
          assert s[0..] == s;
        } else {
          var j :| 0 <= j <= |s[1..]| && Like(s[1..][j..], rest);
          assert s[1..][j..] == s[j + 1..];
        }
      } else {
        forall i | 0 <= i <= |s|
          ensures !Like(s[i..], rest)
        {
          if i > 0 {
            assert s[1..][i - 1..] == s[i..];
          } else {
            assert s[0..] == s;
          }
        }
      }
    }
  }

  lemma LowerKeepsNoWildcards(term: string)
    requires NoWildcards(term)
    ensures NoWildcards(Lower(term))
  {
  }

  /**
   * For a term without `%` or `_`, the search is a case-insensitive substring
   * test (ASCII letters folded).
   */
  lemma ILikeIsSubstring(column: string, term: string)
    requires NoWildcards(term)
    ensures ILikeContains(column, term) <==> Occurs(Lower(term), Lower(column))
  {
    var s, t := Lower(column), Lower(term);
    assert Lower("%" + term + "%") == "%" + (t + "%");
    LowerKeepsNoWildcards(term);
    LikeLeadingPercent(s, t + "%");
    forall i | 0 <= i <= |s|
      ensures Like(s[i..], t + "%") <==> t <= s[i..]
    {
      LikePrefix(s[i..], t);
    }
  }

  /** An empty term matches every text, a one-character `_` every non-empty one. */
  lemma WildcardTerms(column: string)
    ensures ILikeContains(column, "")
    ensures ILikeContains(column, "_") <==> column != []
  {
    var s := Lower(column);
    assert Lower("%" + "" + "%") == "%" + "%";
    assert Lower("%" + "_" + "%") == "%" + "_%";
    LikeLeadingPercent(s, "%");
    assert s[0..] == s;
    LikeAnyRest(s);
    LikeLeadingPercent(s, "_%");
    forall i | 0 <= i <= |s|
      ensures Like(s[i..], "_%") <==> i < |s|
    {
      if i < |s| {
        assert "_%"[1..] == "%";
        LikeAnyRest(s[i..][1..]);
      }
    }
  }
}
