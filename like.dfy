/** Case-insensitive SQL `LIKE` (`ILIKE`), as `search_products` uses it:
    `%` stands for any run of characters, `_` for exactly one, and every
    other character matches itself up to ASCII case. The search pattern
    is the query wrapped in `%`, with the query's own `%` and `_` left as
    wildcards. */
module Like {

  /** SQL `lower()` on one character: ASCII letters only. */
  function Lower(c: char): (d: char)
    ensures 'A' <= c <= 'Z' ==> 'a' <= d <= 'z' && d as int - c as int == 'a' as int - 'A' as int
    ensures !('A' <= c <= 'Z') ==> d == c
  {
    if 'A' <= c <= 'Z' then (c as int - 'A' as int + 'a' as int) as char else c
  }

  /** Does `s` match the `LIKE` pattern `p`, ignoring ASCII case? */
  predicate LikeMatch(s: string, p: string)
    decreases |p|, |s|
  {
    if p == [] then s == []
    else if p[0] == '%' then LikeMatch(s, p[1..]) || (s != [] && LikeMatch(s[1..], p))
    else s != [] && (p[0] == '_' || Lower(s[0]) == Lower(p[0])) && LikeMatch(s[1..], p[1..])
  }

  /** The pattern `f"%{q}%"` built from the query. */
  function Pattern(q: string): string
  {
    "%" + q + "%"
  }

  /** A query with no wildcard characters of its own. */
  predicate NoWildcards(q: string)
  {
    forall k :: 0 <= k < |q| ==> q[k] != '%' && q[k] != '_'
  }

  /** `q` occurs in `s` at offset `i`, ignoring ASCII case. */
  predicate MatchesAt(s: string, q: string, i: int)
  {
    0 <= i && i + |q| <= |s| && forall j :: 0 <= j < |q| ==> Lower(s[i + j]) == Lower(q[j])
  }

  /** `q` is a substring of `s`, ignoring ASCII case. */
  predicate ContainsIgnoringCase(s: string, q: string)
  {
    exists i :: 0 <= i <= |s| && MatchesAt(s, q, i)
  }

  lemma {:induction false} PercentMatchesAny(s: string)
    ensures LikeMatch(s, "%")
  {
    assert "%"[1..] == "";
    if s != [] {
      PercentMatchesAny(s[1..]);
    }
  }

  /** A literal followed by `%` matches exactly the strings that begin with
      that literal. */
  lemma {:induction false} LiteralThenPercent(s: string, q: string, i: int)
    requires NoWildcards(q) && 0 <= i <= |s|
    ensures LikeMatch(s[i..], q + "%") <==> MatchesAt(s, q, i)
    decreases |q|
  {
    if q == [] {
      assert q + "%" == "%";
      PercentMatchesAny(s[i..]);
    } else {
      var p := q + "%";
      assert p[0] == q[0] && p[1..] == q[1..] + "%";
      assert q[0] != '%' && q[0] != '_';
      if i < |s| {
        assert s[i..][0] == s[i] && s[i..][1..] == s[i + 1..];
        assert NoWildcards(q[1..]) by {
          forall k | 0 <= k < |q[1..]| ensures q[1..][k] != '%' && q[1..][k] != '_' {
            assert q[1..][k] == q[k + 1];
          }
        }
        LiteralThenPercent(s, q[1..], i + 1);
        if Lower(s[i]) == Lower(q[0]) && MatchesAt(s, q[1..], i + 1) {
          forall j | 0 <= j < |q| ensures Lower(s[i + j]) == Lower(q[j]) {
            if j > 0 {
              assert q[j] == q[1..][j - 1] && s[i + j] == s[i + 1 + (j - 1)];
            }
          }
        }
        if MatchesAt(s, q, i) {
          assert Lower(s[i + 0]) == Lower(q[0]);
          forall j | 0 <= j < |q[1..]| ensures Lower(s[i + 1 + j]) == Lower(q[1..][j]) {
            assert q[1..][j] == q[j + 1] && s[i + 1 + j] == s[i + (j + 1)];
          }
        }
      } else {
        assert s[i..] == [];
      }
    }
  }

  /** `%` followed by a literal and `%` matches a suffix of `s` exactly
      when the literal occurs at some offset at or after the suffix start. */
  lemma {:induction false} SearchFrom(s: string, q: string, i: int)
    requires NoWildcards(q) && 0 <= i <= |s|
    ensures LikeMatch(s[i..], Pattern(q)) <==> exists k :: i <= k && MatchesAt(s, q, k)
    decreases |s| - i
  {
    var p := Pattern(q);
    assert p[0] == '%' && p[1..] == q + "%";
    LiteralThenPercent(s, q, i);
    if i < |s| {
      assert s[i..] != [] && s[i..][1..] == s[i + 1..];
      SearchFrom(s, q, i + 1);
      if exists k :: i <= k && MatchesAt(s, q, k) {
        var k :| i <= k && MatchesAt(s, q, k);
        if k != i {
          assert i + 1 <= k && MatchesAt(s, q, k);
        }
      }
    } else {
      assert s[i..] == [];
      if exists k :: i <= k && MatchesAt(s, q, k) {
        var k :| i <= k && MatchesAt(s, q, k);
        assert k == i;
      }
    }
  }

  /** For a query without wildcards the search is a case-insensitive
      substring test. */
  lemma SearchIsSubstring(s: string, q: string)
    requires NoWildcards(q)
    ensures LikeMatch(s, Pattern(q)) <==> ContainsIgnoringCase(s, q)
  {
    assert s[0..] == s;
    SearchFrom(s, q, 0);
  }

  /** The query `%` matches every name, the empty one included. */
  lemma PercentQueryMatchesAll(s: string)
    ensures LikeMatch(s, Pattern("%"))
  {
    var p := Pattern("%");
    assert p == "%%%" && p[1..] == "%%" && p[1..][1..] == "%";
    PercentMatchesAny(s);
  }

  /** The query `_` matches every non-empty name. */
  lemma UnderscoreQueryMatchesNonEmpty(s: string)
    ensures LikeMatch(s, Pattern("_")) <==> s != []
  {
    var p := Pattern("_");
    assert p == "%_%" && p[1..] == "_%" && p[1..][1..] == "%";
    if s != [] {
      PercentMatchesAny(s[1..]);
    }
  }
}
