/** The two shapes of query the handlers run against a table:
    `.filter(cond).all()` is `Where`, `.filter(cond).first()` is `First`,
    and `.filter(cond).delete()` keeps `Where` of the negated condition.
    A table is a sequence of rows in storage order. */
module Query {
  import opened Records

  /** The rows of `s` that `keep` accepts, in storage order. */
  function Where<T(!new)>(s: seq<T>, keep: T -> bool): (r: seq<T>)
    ensures |r| <= |s|
    ensures forall x :: x in r <==> x in s && keep(x)
  {
    if s == [] then []
    else
      assert s == [s[0]] + s[1..];
      (if keep(s[0]) then [s[0]] else []) + Where(s[1..], keep)
  }

  /** The first accepted row, if any: the head of `Where`. */
  function First<T(!new)>(s: seq<T>, keep: T -> bool): (r: Option<T>)
    ensures r.None? <==> forall x :: x in s ==> !keep(x)
    ensures r.Some? ==> r.value in s && keep(r.value)
  {
    var found := Where(s, keep);
    if found == [] then None
    else
      assert found[0] in found;
      Some(found[0])
  }

  /** No two rows of `s` share a `key`: a primary key or a unique column. */
  predicate Distinct<T(!new), K(==)>(s: seq<T>, key: T -> K)
  {
    forall i, j :: 0 <= i < j < |s| ==> key(s[i]) != key(s[j])
  }

  /** `UPDATE ... SET f WHERE sel`: every selected row rewritten in place. */
  function Rewrite<T(!new)>(s: seq<T>, sel: T -> bool, f: T -> T): (r: seq<T>)
    ensures |r| == |s|
    ensures forall i :: 0 <= i < |s| ==> r[i] == if sel(s[i]) then f(s[i]) else s[i]
  {
    if s == [] then []
    else [if sel(s[0]) then f(s[0]) else s[0]] + Rewrite(s[1..], sel, f)
  }

  lemma {:induction false} WhereAppend<T(!new)>(s: seq<T>, t: seq<T>, keep: T -> bool)
    ensures Where(s + t, keep) == Where(s, keep) + Where(t, keep)
  {
    if s == [] {
      assert s + t == t;
    } else {
      assert (s + t)[0] == s[0];
      assert (s + t)[1..] == s[1..] + t;
      WhereAppend(s[1..], t, keep);
    }
  }

  /** A filter that accepts every row returns the table unchanged. */
  lemma {:induction false} WhereAll<T(!new)>(s: seq<T>, keep: T -> bool)
    requires forall x :: x in s ==> keep(x)
    ensures Where(s, keep) == s
  {
    if s != [] {
      assert s[0] in s;
      forall x | x in s[1..] ensures keep(x) { assert x in s; }
      WhereAll(s[1..], keep);
    }
  }

  /** A filter that accepts no row returns nothing. */
  lemma {:induction false} WhereNone<T(!new)>(s: seq<T>, keep: T -> bool)
    requires forall x :: x in s ==> !keep(x)
    ensures Where(s, keep) == []
  {
    if s != [] {
      assert s[0] in s;
      forall x | x in s[1..] ensures !keep(x) { assert x in s; }
      WhereNone(s[1..], keep);
    }
  }

  /** Filtering with `wide` first changes nothing about a later, narrower
      filter: rows `narrow` accepts are never among those `wide` drops. */
  lemma {:induction false} WhereNarrowed<T(!new)>(s: seq<T>, wide: T -> bool, narrow: T -> bool)
    requires forall x :: x in s && narrow(x) ==> wide(x)
    ensures Where(Where(s, wide), narrow) == Where(s, narrow)
  {
    if s != [] {
      assert s[0] in s;
      forall x | x in s[1..] && narrow(x) ensures wide(x) { assert x in s; }
      WhereNarrowed(s[1..], wide, narrow);
      var head := if wide(s[0]) then [s[0]] else [];
      WhereAppend(head, Where(s[1..], wide), narrow);
      if wide(s[0]) {
        assert Where(head, narrow) == if narrow(s[0]) then [s[0]] else [] by {
          assert head[1..] == [];
        }
      }
    }
  }

  /** Rewriting rows that a filter rejects both before and after the
      rewrite does not change what the filter returns. */
  lemma {:induction false} WhereRewrite<T(!new)>(s: seq<T>, sel: T -> bool, f: T -> T, keep: T -> bool)
    requires forall x :: x in s && sel(x) ==> !keep(x) && !keep(f(x))
    ensures Where(Rewrite(s, sel, f), keep) == Where(s, keep)
  {
    if s != [] {
      assert s[0] in s;
      forall x | x in s[1..] && sel(x) ensures !keep(x) && !keep(f(x)) { assert x in s; }
      WhereRewrite(s[1..], sel, f, keep);
      var r := Rewrite(s, sel, f);
      assert r[0] == (if sel(s[0]) then f(s[0]) else s[0]);
      assert r[1..] == Rewrite(s[1..], sel, f);
    }
  }

  /** Dropping exactly the row at index `k` is a filter that rejects only it. */
  lemma WhereDropsIndex<T(!new)>(s: seq<T>, keep: T -> bool, k: int)
    requires 0 <= k < |s| && !keep(s[k])
    requires forall i :: 0 <= i < |s| && i != k ==> keep(s[i])
    ensures Where(s, keep) == s[..k] + s[k + 1..]
  {
    var a, b := s[..k], s[k + 1..];
    assert s == a + ([s[k]] + b);
    AllKept(s, keep, 0, k);
    AllKept(s, keep, k + 1, |s|);
    WhereAll(a, keep);
    WhereAll(b, keep);
    WhereSkipsHead(s[k], b, keep);
    WhereAppend(a, [s[k]] + b, keep);
  }

  lemma WhereSkipsHead<T(!new)>(x: T, t: seq<T>, keep: T -> bool)
    requires !keep(x)
    ensures Where([x] + t, keep) == Where(t, keep)
  {
    assert ([x] + t)[0] == x && ([x] + t)[1..] == t;
  }

  lemma AllKept<T(!new)>(s: seq<T>, keep: T -> bool, lo: int, hi: int)
    requires 0 <= lo <= hi <= |s|
    requires forall i :: lo <= i < hi ==> keep(s[i])
    ensures forall x :: x in s[lo..hi] ==> keep(x)
  {
    forall x | x in s[lo..hi] ensures keep(x) {
      var i :| 0 <= i < hi - lo && s[lo..hi][i] == x;
      assert s[lo + i] == x;
    }
  }

  /** Rows appended after the existing ones are found only when none of
      the existing rows matches. */
  lemma FirstAppend<T(!new)>(s: seq<T>, t: seq<T>, keep: T -> bool)
    ensures First(s + t, keep) == if First(s, keep).Some? then First(s, keep) else First(t, keep)
  {
    WhereAppend(s, t, keep);
    if Where(s, keep) != [] {
      assert (Where(s, keep) + Where(t, keep))[0] == Where(s, keep)[0];
    } else {
      assert Where(s, keep) + Where(t, keep) == Where(t, keep);
    }
  }

  /** Under a distinct key, two rows with the same key are the same row. */
  lemma DistinctKey<T(!new), K>(s: seq<T>, key: T -> K, x: T, y: T)
    requires Distinct(s, key) && x in s && y in s && key(x) == key(y)
    ensures x == y
  {
    var i :| 0 <= i < |s| && s[i] == x;
    var j :| 0 <= j < |s| && s[j] == y;
    if i < j {
      assert key(s[i]) != key(s[j]);
    } else if j < i {
      assert key(s[j]) != key(s[i]);
    }
  }

  /** Appending a row whose key is new keeps the key distinct. */
  lemma DistinctAppend<T(!new), K>(s: seq<T>, key: T -> K, x: T)
    requires Distinct(s, key)
    requires forall y :: y in s ==> key(y) != key(x)
    ensures Distinct(s + [x], key)
  {
    var t := s + [x];
    forall i, j | 0 <= i < j < |t| ensures key(t[i]) != key(t[j]) {
      assert t[i] == s[i];
      if j == |s| {
        assert s[i] in s;
      } else {
        assert t[j] == s[j];
      }
    }
  }

  /** Deleting rows keeps a key distinct. */
  lemma {:induction false} WhereKeepsDistinct<T(!new), K>(s: seq<T>, keep: T -> bool, key: T -> K)
    requires Distinct(s, key)
    ensures Distinct(Where(s, keep), key)
  {
    if s != [] {
      var rest := s[1..];
      assert Distinct(rest, key) by {
        forall i, j | 0 <= i < j < |rest| ensures key(rest[i]) != key(rest[j]) {
          assert rest[i] == s[i + 1] && rest[j] == s[j + 1];
        }
      }
      WhereKeepsDistinct(rest, keep, key);
      var w := Where(rest, keep);
      if keep(s[0]) {
        var t := [s[0]] + w;
        forall i, j | 0 <= i < j < |t| ensures key(t[i]) != key(t[j]) {
          if i == 0 {
            assert t[j] == w[j - 1] && w[j - 1] in w;
            var m :| 0 <= m < |rest| && rest[m] == t[j];
            assert s[m + 1] == t[j];
          } else {
            assert t[i] == w[i - 1] && t[j] == w[j - 1];
          }
        }
      } else {
        assert Where(s, keep) == w;
      }
    }
  }
}
