/** The store's query primitives as the routes use them: a filtered scan of
    the notes table with an optional LIMIT, and SQL's LIKE pattern match in
    its case-insensitive `ilike` form. */
module Query {
  import opened Outcomes

  /** The keys of the rows a filter keeps. */
  ghost function Matching<T>(rows: map<int, T>, keep: T -> bool): set<int>
  {
    set k | k in rows && keep(rows[k])
  }

  /** A subset is no larger than its superset. */
  lemma SubsetSize(a: set<int>, b: set<int>)
    requires a <= b
    ensures |a| <= |b|
    ensures |a| == |b| ==> a == b
  {
    assert b == a + (b - a);
    assert a * (b - a) == {};
  }

  /** Taking one pending key of the scan moves it to the handled keys, and
      to the kept ones when the filter keeps its row. */
  lemma ScanStep<T>(rows: map<int, T>, keep: T -> bool, got: set<int>, pending: set<int>, k: int)
    requires pending <= rows.Keys && got == Matching(rows, keep) - pending && k in pending
    ensures k !in got
    ensures (if keep(rows[k]) then got + {k} else got) == Matching(rows, keep) - (pending - {k})
  {
  }

  /** Appending a newly kept row keeps the scan's bookkeeping: each returned
      row is the row of its key, keys are not repeated, and every kept key's
      row has been returned. */
  lemma ScanKeep<T>(rows: map<int, T>, got: set<int>, r: seq<T>, ids: seq<int>, k: int)
    requires k in rows && k !in got && got <= rows.Keys && |r| == |ids|
    requires forall i :: 0 <= i < |ids| ==> ids[i] in got && r[i] == rows[ids[i]]
    requires forall i, j :: 0 <= i < j < |ids| ==> ids[i] != ids[j]
    requires forall m :: m in got ==> rows[m] in r
    ensures forall i :: 0 <= i < |ids + [k]| ==> (ids + [k])[i] in got + {k} && (r + [rows[k]])[i] == rows[(ids + [k])[i]]
    ensures forall i, j :: 0 <= i < j < |ids + [k]| ==> (ids + [k])[i] != (ids + [k])[j]
    ensures forall m :: m in got + {k} ==> rows[m] in r + [rows[k]]
  {
    forall i, j | 0 <= i < j < |ids + [k]| ensures (ids + [k])[i] != (ids + [k])[j] {
      if j == |ids| {
        assert ids[i] in got;
      }
    }
  }

  /** Once no key is pending, every kept key has been found. */
  lemma ScanDone<T>(rows: map<int, T>, keep: T -> bool, got: set<int>, pending: set<int>)
    requires got == Matching(rows, keep) - pending && forall k :: k !in pending
    ensures got == Matching(rows, keep)
  {
    forall m | m in Matching(rows, keep) ensures m in got {
      assert m !in pending;
    }
  }

  /** `query(...).filter(keep).limit(n).all()`: every kept row, each once, in
      an order the store picks; with a limit, only the first `n` of them.
      `ids` are the keys of the returned rows. */
  method Select<T>(rows: map<int, T>, keep: T -> bool, limit: Option<nat>) returns (r: seq<T>, ghost ids: seq<int>)
    ensures |r| == |ids|
    ensures forall i :: 0 <= i < |ids| ==> ids[i] in rows && r[i] == rows[ids[i]] && keep(r[i])
    ensures forall i, j :: 0 <= i < j < |ids| ==> ids[i] != ids[j]
    ensures |r| == if limit.Some? && limit.value < |Matching(rows, keep)| then limit.value else |Matching(rows, keep)|
    ensures limit.None? || |Matching(rows, keep)| <= limit.value ==>
              forall k :: k in rows && keep(rows[k]) ==> rows[k] in r
  {
    r, ids := [], [];
    ghost var got: set<int> := {};
    var pending := rows.Keys;
    while limit.None? || |r| < limit.value
      invariant pending <= rows.Keys
      invariant got == Matching(rows, keep) - pending
      invariant |r| == |ids| == |got|
      invariant forall i :: 0 <= i < |ids| ==> ids[i] in got && r[i] == rows[ids[i]]
      invariant forall i, j :: 0 <= i < j < |ids| ==> ids[i] != ids[j]
      invariant forall k :: k in got ==> rows[k] in r
      invariant limit.Some? ==> |r| <= limit.value
      decreases pending
    {
      if k :| k in pending {
        ScanStep(rows, keep, got, pending, k);
        if keep(rows[k]) {
          ScanKeep(rows, got, r, ids, k);
          r := r + [rows[k]];
          ids := ids + [k];
          got := got + {k};
        }
        pending := pending - {k};
      } else {
        ScanDone(rows, keep, got, pending);
        break;
      }
    }
    SubsetSize(got, Matching(rows, keep));
  }

  /** ASCII lower-casing, as SQLite's `lower()` applies it. */
  function Lower(c: char): char
  {
    if 'A' <= c <= 'Z' then (c as int - 'A' as int + 'a' as int) as char else c
  }

  /** `s ILIKE p`: SQL's LIKE, where `%` in the pattern stands for any run of
      characters and `_` for any one character, every other character
      matches itself up to ASCII case, and there is no escape character. */
  function Ilike(s: string, p: string): bool
    decreases |p| + |s|
  {
    if p == [] then s == []
    else if p[0] == '%' then Ilike(s, p[1..]) || (s != [] && Ilike(s[1..], p))
    else s != [] && (p[0] == '_' || Lower(p[0]) == Lower(s[0])) && Ilike(s[1..], p[1..])
  }

  /** `q` holds neither of LIKE's wildcard characters. */
  predicate Literal(q: string)
  {
    forall i :: 0 <= i < |q| ==> q[i] != '%' && q[i] != '_'
  }

  /** `s` starts with `q`, ignoring ASCII case. */
  predicate StartsWithCI(s: string, q: string)
  {
    |q| <= |s| && forall i :: 0 <= i < |q| ==> Lower(s[i]) == Lower(q[i])
  }

  /** `q` occurs somewhere in `s`, ignoring ASCII case. */
  predicate ContainsCI(s: string, q: string)
  {
    exists k :: 0 <= k <= |s| && StartsWithCI(s[k..], q)
  }

  /** A lone `%` matches every text. */
  lemma {:induction false} PercentMatchesAll(s: string)
    ensures Ilike(s, "%")
    decreases |s|
  {
    if s != [] {
      PercentMatchesAll(s[1..]);
    }
  }

  /** A leading `%` lets the rest of the pattern match any suffix. */
  lemma {:induction false} LeadingPercent(s: string, p: string)
    ensures Ilike(s, "%" + p) <==> exists k :: 0 <= k <= |s| && Ilike(s[k..], p)
    decreases |s|
  {
    var pp := "%" + p;
    assert pp[1..] == p;
    if s == [] {
      assert s[0..] == s;
    } else {
      LeadingPercent(s[1..], p);
      if Ilike(s, pp) {
        if !Ilike(s, p) {
          var k :| 0 <= k <= |s[1..]| && Ilike(s[1..][k..], p);
          assert s[1..][k..] == s[k + 1..];
        } else {
          assert s[0..] == s;
        }
      }
      if k :| 0 <= k <= |s| && Ilike(s[k..], p) {
        if k == 0 {
          assert s[0..] == s;
        } else {
          assert s[1..][k - 1..] == s[k..];
        }
      }
    }
  }

  /** A literal query followed by `%` matches exactly the texts that start
      with it, up to case. */
  lemma {:induction false} LiteralThenPercent(s: string, q: string)
    requires Literal(q)
    ensures Ilike(s, q + "%") <==> StartsWithCI(s, q)
    decreases |q|
  {
    if q == [] {
      assert q + "%" == "%";
      PercentMatchesAll(s);
    } else {
      assert (q + "%")[1..] == q[1..] + "%";
      if s != [] {
        LiteralThenPercent(s[1..], q[1..]);
        if StartsWithCI(s[1..], q[1..]) && Lower(q[0]) == Lower(s[0]) {
          forall i | 0 <= i < |q| ensures Lower(s[i]) == Lower(q[i]) {
            if i > 0 {
              assert s[1..][i - 1] == s[i] && q[1..][i - 1] == q[i];
            }
          }
        }
        if StartsWithCI(s, q) {
          assert Lower(s[0]) == Lower(q[0]);
          forall i | 0 <= i < |q[1..]| ensures Lower(s[1..][i]) == Lower(q[1..][i]) {
            assert s[1..][i] == s[i + 1] && q[1..][i] == q[i + 1];
          }
        }
      }
    }
  }

  /** For a query without wildcard characters, the search filter
      `ilike('%' + q + '%')` is case-insensitive substring search. */
  lemma IlikeIsSubstring(s: string, q: string)
    requires Literal(q)
    ensures Ilike(s, "%" + q + "%") <==> ContainsCI(s, q)
  {
    assert "%" + q + "%" == "%" + (q + "%");
    LeadingPercent(s, q + "%");
    forall k | 0 <= k <= |s| ensures Ilike(s[k..], q + "%") <==> StartsWithCI(s[k..], q) {
      LiteralThenPercent(s[k..], q);
    }
  }

  /** The query is not escaped, so `_` in it matches any character: a search
      for "a_c" finds "abc", which does not contain "a_c". */
  lemma UnderscoreIsWildcard()
    ensures Ilike("abc", "%" + "a_c" + "%")
    ensures !ContainsCI("abc", "a_c")
  {
    assert "%" + "a_c" + "%" == "%a_c%";
    assert Ilike("abc"[3..], "%");
    assert Ilike("abc", "a_c%");
    assert Ilike("abc", "%a_c%");
    forall k | 0 <= k <= 3 ensures !StartsWithCI("abc"[k..], "a_c") {
      if k == 0 {
        assert Lower("abc"[1]) != Lower("a_c"[1]);
      }
    }
  }
}
