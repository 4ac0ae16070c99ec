/** The self-referential parent/children relation of the notes table,
    reduced to what the tree operations look at: each row's parent link and
    its folder flag. Children are derived from parent links (the `children`
    backref), never stored.

    Two views of "the notes below a folder" are defined here and proved
    equal: `Cascade`, the set of rows the recursive delete actually visits
    (it only descends into folders), and `Subtree`, every row from which a
    chain of parent links leads up to the folder. */
module Forest {
  import opened Outcomes

  /** A row of the notes table as the tree sees it. */
  datatype Link = Link(parent: Option<int>, isFolder: bool)

  /** The notes table, keyed by note id. */
  type Table = map<int, Link>

  /** The ids whose parent link names `p`: the query `parent_id == p`. */
  function Kids(t: Table, p: int): set<int>
  {
    set c | c in t && t[c].parent == Some(p)
  }

  /** `h` ranks the rows below the rows it ranks: every child of a ranked
      row is ranked, and lower than its parent. Rows elsewhere in the table
      need not be ranked. */
  ghost predicate Ranked(t: Table, h: map<int, nat>)
  {
    forall c :: c in t && t[c].parent.Some? && t[c].parent.value in h ==>
      c in h && h[c] < h[t[c].parent.value]
  }

  /** No chain of parent links is a cycle: one ranking covers every row. */
  ghost predicate Acyclic(t: Table)
  {
    exists h: map<int, nat> :: t.Keys <= h.Keys && Ranked(t, h)
  }

  /** The rows below `a` carry a ranking, so the recursive delete started at
      `a` ends, whatever cycles the rest of the table holds. */
  ghost predicate Grounded(t: Table, a: int)
  {
    exists h: map<int, nat> :: a in h && Ranked(t, h)
  }

  /** Every row whose parent exists hangs under a folder. */
  ghost predicate FoldersOnly(t: Table)
  {
    forall c :: c in t && t[c].parent.Some? && t[c].parent.value in t ==> t[t[c].parent.value].isFolder
  }

  /** The ids removed by the recursive delete started at `p`: every child of
      `p`, and for each child that is a folder, what the recursion below that
      child removes. */
  ghost function Cascade(t: Table, h: map<int, nat>, p: int): (r: set<int>)
    requires Ranked(t, h) && p in h
    ensures forall d :: d in r ==> d in t && d in h && h[d] < h[p]
    decreases h[p]
  {
    var kids := Kids(t, p);
    kids + set c, d | c in kids && t[c].isFolder && d in Cascade(t, h, c) :: d
  }

  /** What one turn of the delete loop removes for child `c`: the child and,
      if it is a folder, everything the recursion below it removes. */
  ghost function Region(t: Table, h: map<int, nat>, c: int): set<int>
    requires Ranked(t, h) && c in t && c in h
  {
    {c} + if t[c].isFolder then Cascade(t, h, c) else {}
  }

  /** What the delete loop has removed after handling the children `cs`. */
  ghost function Swept(t: Table, h: map<int, nat>, cs: set<int>): set<int>
    requires Ranked(t, h) && cs <= t.Keys && cs <= h.Keys
  {
    set c, d | c in cs && d in Region(t, h, c) :: d
  }

  /** `path` climbs parent links: each entry but the last is a row whose
      parent is the next entry. */
  ghost predicate IsPath(t: Table, path: seq<int>)
  {
    && |path| >= 2
    && forall i :: 0 <= i < |path| - 1 ==> path[i] in t && t[path[i]].parent == Some(path[i + 1])
  }

  /** `d` lies strictly below `a`. */
  ghost predicate Descends(t: Table, d: int, a: int)
  {
    exists path :: IsPath(t, path) && path[0] == d && path[|path| - 1] == a
  }

  /** The rows of the subtree rooted at `a`: `a` itself and every row below it. */
  ghost function Subtree(t: Table, a: int): set<int>
  {
    set d | d in t && (d == a || Descends(t, d, a))
  }

  /** A ranked parent outranks its child. */
  lemma ParentOutranks(t: Table, h: map<int, nat>, c: int)
    requires Ranked(t, h) && c in t && t[c].parent.Some? && t[c].parent.value in h
    ensures c in h && h[c] < h[t[c].parent.value]
  {
  }

  /** Along any chain of parent links in a ranked table the rank strictly
      grows, so no chain returns to the row it started from. */
  lemma {:induction false} RankGrowsAlongPath(t: Table, h: map<int, nat>, path: seq<int>)
    requires Ranked(t, h) && IsPath(t, path) && path[|path| - 1] in h
    ensures path[0] in h && h[path[0]] < h[path[|path| - 1]]
    ensures path[0] != path[|path| - 1]
    decreases |path|
  {
    assert path[0] in t && t[path[0]].parent == Some(path[1]);
    if |path| > 2 {
      var rest := path[1..];
      assert IsPath(t, rest) by {
        forall i | 0 <= i < |rest| - 1
          ensures rest[i] in t && t[rest[i]].parent == Some(rest[i + 1])
        {
          assert rest[i] == path[i + 1] && rest[i + 1] == path[i + 2];
        }
      }
      RankGrowsAlongPath(t, h, rest);
      assert path[1] == rest[0];
    }
    assert path[1] in h;
    ParentOutranks(t, h, path[0]);
  }

  /** A row that is its own parent (which nothing in an update forbids)
      makes the table cyclic. */
  lemma SelfParentIsCycle(t: Table, a: int)
    requires a in t && t[a].parent == Some(a)
    ensures !Grounded(t, a) && !Acyclic(t)
  {
  }

  /** Each row the cascade removes hangs either directly under the starting
      row or under another removed row. */
  lemma {:induction false} CascadeUp(t: Table, h: map<int, nat>, a: int, d: int)
    requires Ranked(t, h) && a in t && a in h && d in Cascade(t, h, a)
    ensures d in t && t[d].parent.Some?
    ensures t[d].parent.value == a || t[d].parent.value in Cascade(t, h, a)
    decreases h[a]
  {
    if d !in Kids(t, a) {
      var c :| c in Kids(t, a) && t[c].isFolder && d in Cascade(t, h, c);
      CascadeUp(t, h, c, d);
    }
  }

  /** The cascade is closed under taking children of the folders it removes. */
  lemma {:induction false} CascadeClosed(t: Table, h: map<int, nat>, a: int, q: int, n: int)
    requires Ranked(t, h) && a in t && a in h && q in Cascade(t, h, a)
    requires q in t && t[q].isFolder && n in t && t[n].parent == Some(q)
    ensures n in Cascade(t, h, a)
    decreases h[a]
  {
    if q in Kids(t, a) {
      assert n in Kids(t, q);
      assert n in Cascade(t, h, q);
    } else {
      var c :| c in Kids(t, a) && t[c].isFolder && q in Cascade(t, h, c);
      CascadeClosed(t, h, c, q, n);
      assert n in Cascade(t, h, c);
    }
  }

  /** The subtrees of two different children of one row share no row. */
  lemma {:induction false} SiblingsDisjoint(t: Table, h: map<int, nat>, p: int, c1: int, c2: int, d: int)
    requires Ranked(t, h) && p in t && p in h
    requires c1 in Kids(t, p) && c2 in Kids(t, p) && c1 != c2
    requires d == c1 || d in Cascade(t, h, c1)
    requires d == c2 || d in Cascade(t, h, c2)
    ensures false
    decreases h[c1] - h[d]
  {
    if d == c1 {
      CascadeUp(t, h, c2, c1);
    } else if d == c2 {
      CascadeUp(t, h, c1, c2);
    } else {
      CascadeUp(t, h, c1, d);
      CascadeUp(t, h, c2, d);
      SiblingsDisjoint(t, h, p, c1, c2, t[d].parent.value);
    }
  }

  /** A child not yet handled by the delete loop is untouched by what the
      loop has removed so far, and so is everything below it. */
  lemma FreshSibling(t: Table, h: map<int, nat>, p: int, c: int, done: set<int>)
    requires Ranked(t, h) && p in t && p in h
    requires c in Kids(t, p) && done <= Kids(t, p) && done <= h.Keys && c !in done
    ensures ({c} + Cascade(t, h, c)) !! Swept(t, h, done)
  {
    forall d | d in Swept(t, h, done) && d in {c} + Cascade(t, h, c)
      ensures false
    {
      var c' :| c' in done && d in Region(t, h, c');
      SiblingsDisjoint(t, h, p, c, c', d);
    }
  }

  /** Handling one more child adds exactly that child's region. */
  lemma SweptAdd(t: Table, h: map<int, nat>, cs: set<int>, c: int)
    requires Ranked(t, h) && cs <= t.Keys && cs <= h.Keys && c in t && c in h
    ensures Swept(t, h, cs + {c}) == Swept(t, h, cs) + Region(t, h, c)
  {
    forall d | d in Region(t, h, c) ensures d in Swept(t, h, cs + {c}) {
      assert c in cs + {c};
    }
  }

  /** Handling every child of `p` removes exactly the cascade from `p`. */
  lemma CascadeIsSwept(t: Table, h: map<int, nat>, p: int)
    requires Ranked(t, h) && p in t && p in h
    ensures Kids(t, p) <= t.Keys && Kids(t, p) <= h.Keys
    ensures Cascade(t, h, p) == Swept(t, h, Kids(t, p))
  {
    var kids := Kids(t, p);
    forall c | c in kids ensures c in h {
      ParentOutranks(t, h, c);
    }
    forall d | d in Cascade(t, h, p) ensures d in Swept(t, h, kids) {
      if d in kids {
        assert d in Region(t, h, d);
      } else {
        var c :| c in kids && t[c].isFolder && d in Cascade(t, h, c);
        assert d in Region(t, h, c);
      }
    }
  }

  /** What the delete loop has removed after handling the children `cs` in
      this order. */
  ghost function SweptInOrder(t: Table, h: map<int, nat>, cs: seq<int>): set<int>
    requires Ranked(t, h) && forall i :: 0 <= i < |cs| ==> cs[i] in t && cs[i] in h
    decreases |cs|
  {
    if cs == [] then {} else SweptInOrder(t, h, cs[..|cs| - 1]) + Region(t, h, cs[|cs| - 1])
  }

  /** The order in which the loop handles the children does not matter:
      the result depends only on which children were handled. */
  lemma {:induction false} SweptInOrderIsSwept(t: Table, h: map<int, nat>, cs: seq<int>, s: set<int>)
    requires Ranked(t, h) && forall i :: 0 <= i < |cs| ==> cs[i] in t && cs[i] in h
    requires forall x :: x in s <==> x in cs
    ensures s <= t.Keys && s <= h.Keys
    ensures SweptInOrder(t, h, cs) == Swept(t, h, s)
    decreases |cs|
  {
    forall x | x in s ensures x in t && x in h {
      var i :| 0 <= i < |cs| && cs[i] == x;
    }
    if cs == [] {
      forall d ensures d !in Swept(t, h, s) {
      }
    } else {
      var init := cs[..|cs| - 1];
      var c := cs[|cs| - 1];
      var s' := set x | x in init;
      forall x ensures x in s <==> x in s' + {c} {
        if x in cs && x != c {
          var i :| 0 <= i < |cs| && cs[i] == x;
          assert init[i] == x;
        }
      }
      SweptInOrderIsSwept(t, h, init, s');
      SweptAdd(t, h, s', c);
      assert s == s' + {c};
    }
  }

  /** A ranking of a table also ranks any table that keeps some of its rows. */
  lemma RankedRestrict(t: Table, t': Table, h: map<int, nat>)
    requires Ranked(t, h)
    requires t'.Keys <= t.Keys && forall k :: k in t' ==> t'[k] == t[k]
    ensures Ranked(t', h)
  {
    forall k | k in t' && t'[k].parent.Some? && t'[k].parent.value in h
      ensures k in h && h[k] < h[t'[k].parent.value]
    {
      assert k in t && t'[k] == t[k];
      ParentOutranks(t, h, k);
    }
  }

  /** What the cascade removes below a folder child is part of what it
      removes below the parent. */
  lemma InKidCascade(t: Table, h: map<int, nat>, c: int, k: int, d: int)
    requires Ranked(t, h) && c in t && c in h && k in Kids(t, c) && t[k].isFolder && d in Cascade(t, h, k)
    ensures d in Cascade(t, h, c)
  {
  }

  /** The cascade from a folder child is part of the cascade from its parent. */
  lemma CascadeOfKid(t: Table, h: map<int, nat>, c: int, k: int)
    requires Ranked(t, h) && c in t && c in h && k in Kids(t, c) && t[k].isFolder
    ensures k in Cascade(t, h, c)
    ensures Cascade(t, h, k) <= Cascade(t, h, c)
  {
    forall d | d in Cascade(t, h, k) ensures d in Cascade(t, h, c) {
      InKidCascade(t, h, c, k, d);
    }
  }

  /** The cascade from `c` reads only the rows it removes (and `c`): any
      smaller table that keeps them gives the same cascade. */
  lemma {:induction false} CascadeFrame(t: Table, t': Table, h: map<int, nat>, c: int)
    requires Ranked(t, h) && c in t && c in h
    requires t'.Keys <= t.Keys && forall k :: k in t' ==> t'[k] == t[k]
    requires c in t' && Cascade(t, h, c) <= t'.Keys
    ensures Ranked(t', h)
    ensures Cascade(t', h, c) == Cascade(t, h, c)
    decreases h[c]
  {
    RankedRestrict(t, t', h);
    var kids := Kids(t, c);
    assert kids <= Cascade(t, h, c);
    forall k | k in t' && t'[k].parent == Some(c) ensures k in kids {
      assert t'[k] == t[k];
    }
    forall k | k in kids ensures k in t' && t'[k].parent == Some(c) && t'[k] == t[k] {
    }
    assert Kids(t', c) == kids;
    forall k | k in kids && t[k].isFolder
      ensures Cascade(t', h, k) == Cascade(t, h, k)
    {
      CascadeOfKid(t, h, c, k);
      CascadeFrame(t, t', h, k);
    }
  }

  /** Every row the cascade removes lies below the starting row. */
  lemma {:induction false} CascadePath(t: Table, h: map<int, nat>, a: int, d: int) returns (path: seq<int>)
    requires Ranked(t, h) && a in t && a in h && d in Cascade(t, h, a)
    ensures IsPath(t, path) && path[0] == d && path[|path| - 1] == a
    decreases h[a]
  {
    if d in Kids(t, a) {
      path := [d, a];
    } else {
      var c :| c in Kids(t, a) && t[c].isFolder && d in Cascade(t, h, c);
      var below := CascadePath(t, h, c, d);
      path := below + [a];
      forall i | 0 <= i < |path| - 1
        ensures path[i] in t && t[path[i]].parent == Some(path[i + 1])
      {
        if i < |below| - 1 {
          assert path[i] == below[i] && path[i + 1] == below[i + 1];
        } else {
          assert path[i] == c && path[i + 1] == a;
        }
      }
    }
  }

  /** When only folders have children, every row below `a` is removed by
      the cascade from `a`. */
  lemma {:induction false} PathInCascade(t: Table, h: map<int, nat>, a: int, path: seq<int>)
    requires Ranked(t, h) && FoldersOnly(t) && a in t && a in h
    requires IsPath(t, path) && path[|path| - 1] == a
    ensures path[0] in Cascade(t, h, a)
    decreases |path|
  {
    if |path| == 2 {
      assert path[0] in Kids(t, a);
    } else {
      var rest := path[1..];
      assert IsPath(t, rest) by {
        forall i | 0 <= i < |rest| - 1
          ensures rest[i] in t && t[rest[i]].parent == Some(rest[i + 1])
        {
          assert rest[i] == path[i + 1] && rest[i + 1] == path[i + 2];
        }
      }
      PathInCascade(t, h, a, rest);
      assert path[0] in t && t[path[0]].parent == Some(path[1]);
      CascadeClosed(t, h, a, path[1], path[0]);
    }
  }

  /** When only folders have children, an existing parent is a folder. */
  lemma ParentIsFolder(t: Table, c: int)
    requires FoldersOnly(t) && c in t && t[c].parent.Some? && t[c].parent.value in t
    ensures t[t[c].parent.value].isFolder
  {
  }

  /** When only folders have children, a row with anything below it is a
      folder. */
  lemma OnlyFoldersHaveDescendants(t: Table, a: int, d: int)
    requires FoldersOnly(t) && a in t
    ensures Descends(t, d, a) ==> t[a].isFolder
  {
    if Descends(t, d, a) {
      var path :| IsPath(t, path) && path[0] == d && path[|path| - 1] == a;
      var i := |path| - 2;
      assert path[i] in t && t[path[i]].parent == Some(a);
      ParentIsFolder(t, path[i]);
    }
  }

  /** When only folders have children, what deleting row `a` removes (the
      row, plus the cascade if it is a folder) is exactly the subtree rooted
      at `a`. */
  lemma RegionIsSubtree(t: Table, h: map<int, nat>, a: int)
    requires Ranked(t, h) && FoldersOnly(t) && a in t && a in h
    ensures Region(t, h, a) == Subtree(t, a)
  {
    forall d | d in Region(t, h, a) ensures d in Subtree(t, a) {
      if d != a {
        var path := CascadePath(t, h, a, d);
      }
    }
    forall d | d in Subtree(t, a) ensures d in Region(t, h, a) {
      if d != a {
        var path :| IsPath(t, path) && path[0] == d && path[|path| - 1] == a;
        OnlyFoldersHaveDescendants(t, a, d);
        PathInCascade(t, h, a, path);
      }
    }
  }

  /** A child of a row in a subtree is in the subtree too: removing a whole
      subtree leaves no row pointing at a removed parent. */
  lemma SubtreeClosed(t: Table, a: int, q: int, n: int)
    requires q in Subtree(t, a) && n in t && t[n].parent == Some(q)
    ensures n in Subtree(t, a)
  {
    if q == a {
      assert IsPath(t, [n, a]);
    } else {
      var path :| IsPath(t, path) && path[0] == q && path[|path| - 1] == a;
      var up := [n] + path;
      forall i | 0 <= i < |up| - 1
        ensures up[i] in t && up[i] in t && t[up[i]].parent == Some(up[i + 1])
      {
        if i > 0 {
          assert up[i] == path[i - 1] && up[i + 1] == path[i];
        }
      }
      assert IsPath(t, up) && up[0] == n && up[|up| - 1] == a;
    }
  }

  /** When the delete loop reaches the `i`-th child `cs[i]` of `p`, the rows
      not yet removed still hold it and, with the same links, everything
      below it. */
  lemma ChildStillPresent(t: Table, h: map<int, nat>, p: int, cs: seq<int>, i: int)
    requires Ranked(t, h) && p in t && p in h && 0 <= i < |cs|
    requires forall j :: 0 <= j < |cs| ==> cs[j] in Kids(t, p)
    requires forall j, k :: 0 <= j < k < |cs| ==> cs[j] != cs[k]
    ensures forall j :: 0 <= j < i ==> cs[..i][j] in t && cs[..i][j] in h
    ensures var rest := t - SweptInOrder(t, h, cs[..i]);
              && cs[i] in rest && cs[i] in h && h[cs[i]] < h[p] && Ranked(rest, h)
              && Cascade(rest, h, cs[i]) == Cascade(t, h, cs[i])
  {
    var c := cs[i];
    var done := set x | x in cs[..i];
    SweptInOrderIsSwept(t, h, cs[..i], done);
    var rest := t - Swept(t, h, done);
    FreshSibling(t, h, p, c, done);
    ParentOutranks(t, h, c);
    RankedRestrict(t, rest, h);
    CascadeFrame(t, rest, h, c);
  }

  /** Removing two sets of keys one after the other. */
  lemma MinusMinus<V>(m: map<int, V>, a: set<int>, b: set<int>)
    ensures m - a - b == m - (a + b)
  {
  }

  /** One turn of the delete loop over the rows `start` whose links are `t`:
      once the rows below the `i`-th child and then the child itself are
      removed, the first `i + 1` children and everything below them are
      gone. */
  lemma SweepStep<V>(start: map<int, V>, t: Table, h: map<int, nat>, cs: seq<int>, i: int, after: map<int, V>)
    requires start.Keys == t.Keys && Ranked(t, h) && 0 <= i < |cs|
    requires forall j :: 0 <= j < |cs| ==> cs[j] in t && cs[j] in h
    requires if t[cs[i]].isFolder
             then after == start - SweptInOrder(t, h, cs[..i]) - Cascade(t, h, cs[i])
             else after == start - SweptInOrder(t, h, cs[..i])
    ensures after - {cs[i]} == start - SweptInOrder(t, h, cs[..i + 1])
  {
    var c := cs[i];
    var swept := SweptInOrder(t, h, cs[..i]);
    assert cs[..i + 1][..i] == cs[..i];
    assert SweptInOrder(t, h, cs[..i + 1]) == swept + Region(t, h, c);
    if t[c].isFolder {
      MinusMinus(start - swept, Cascade(t, h, c), {c});
      assert Region(t, h, c) == Cascade(t, h, c) + {c};
    } else {
      assert Region(t, h, c) == {c};
    }
    MinusMinus(start, swept, Region(t, h, c));
  }

  /** One step up the parent links: a row other than `a` is in the subtree
      of `a` exactly when its parent is. */
  lemma StepUp(t: Table, a: int, c: int)
    requires a in t && c in t && c != a
    ensures c in Subtree(t, a) <==> t[c].parent.Some? && t[c].parent.value in Subtree(t, a)
  {
    if c in Subtree(t, a) {
      var path :| IsPath(t, path) && path[0] == c && path[|path| - 1] == a;
      assert t[c].parent == Some(path[1]);
      if |path| > 2 {
        var rest := path[1..];
        forall i | 0 <= i < |rest| - 1 ensures rest[i] in t && t[rest[i]].parent == Some(rest[i + 1]) {
          assert rest[i] == path[i + 1] && rest[i + 1] == path[i + 2];
        }
        assert IsPath(t, rest) && rest[0] == path[1] && rest[|rest| - 1] == a;
      }
    }
    if t[c].parent.Some? && t[c].parent.value in Subtree(t, a) {
      SubtreeClosed(t, a, t[c].parent.value, c);
    }
  }

  /** Hanging row `a` under a parent outside its own subtree keeps the table
      free of cycles: the rows outside the subtree are ranked above it. */
  lemma ReparentKeepsAcyclic(t: Table, h: map<int, nat>, a: int, p: Option<int>)
    requires t.Keys <= h.Keys && Ranked(t, h) && a in t
    requires p.Some? && p.value in t ==> p.value !in Subtree(t, a)
    ensures Acyclic(t[a := Link(p, t[a].isFolder)])
  {
    var t' := t[a := Link(p, t[a].isFolder)];
    var s := Subtree(t, a);
    var h' := map x | x in t :: if x in s then h[x] else h[x] + h[a] + 1;
    forall c | c in t' && t'[c].parent.Some? && t'[c].parent.value in t'
      ensures h'[c] < h'[t'[c].parent.value]
    {
      var q := t'[c].parent.value;
      if c == a {
        assert a in s && q !in s;
      } else {
        ParentOutranks(t, h, c);
        if c in s {
          StepUp(t, a, c);
        } else if q in s {
          SubtreeClosed(t, a, q, c);
        }
      }
    }
    assert t'.Keys <= h'.Keys && Ranked(t', h');
  }

  /** Adding a new row that no row points at, and that does not point at
      itself, keeps the table free of cycles: the new row ranks lowest. */
  lemma AddLeafKeepsAcyclic(t: Table, h: map<int, nat>, n: int, l: Link)
    requires t.Keys <= h.Keys && Ranked(t, h) && n !in t && l.parent != Some(n)
    requires forall c :: c in t ==> t[c].parent != Some(n)
    ensures Acyclic(t[n := l])
  {
    var t' := t[n := l];
    var h' := map x | x in t' :: if x == n then 0 else h[x] + 1;
    forall c | c in t' && t'[c].parent.Some? && t'[c].parent.value in t'
      ensures h'[c] < h'[t'[c].parent.value]
    {
      if c != n {
        ParentOutranks(t, h, c);
      }
    }
    assert t'.Keys <= h'.Keys && Ranked(t', h');
  }

  /** Removing rows keeps the table free of cycles. */
  lemma RemoveKeepsAcyclic(t: Table, s: set<int>)
    requires Acyclic(t)
    ensures Acyclic(t - s)
  {
    var h: map<int, nat> :| t.Keys <= h.Keys && Ranked(t, h);
    RankedRestrict(t, t - s, h);
  }

  /** Deleting a folder's cascade and then the folder removes its subtree. */
  lemma FolderRemoved<V>(start: map<int, V>, t: Table, h: map<int, nat>, a: int)
    requires Ranked(t, h) && FoldersOnly(t) && a in t && a in h && t[a].isFolder
    ensures start - Cascade(t, h, a) - {a} == start - Subtree(t, a)
  {
    RegionIsSubtree(t, h, a);
    assert Region(t, h, a) == Cascade(t, h, a) + {a};
    MinusMinus(start, Cascade(t, h, a), {a});
  }

  /** A row that is not a folder has nothing below it. */
  lemma LeafRemoved<V>(start: map<int, V>, t: Table, a: int)
    requires FoldersOnly(t) && a in t && !t[a].isFolder
    ensures start - {a} == start - Subtree(t, a)
  {
    forall d ensures d in Subtree(t, a) <==> d == a {
      OnlyFoldersHaveDescendants(t, a, d);
    }
  }

  /** A table without cycles has every row grounded. */
  lemma AcyclicGrounded(t: Table, a: int)
    requires Acyclic(t) && a in t
    ensures Grounded(t, a)
  {
    var h: map<int, nat> :| t.Keys <= h.Keys && Ranked(t, h);
    assert a in h;
  }

  /** In a table without cycles no row lies on a cycle, so any folder may
      be deleted. */
  lemma AcyclicNotOnCycle(t: Table, a: int)
    requires Acyclic(t) && a in t
    ensures !Descends(t, a, a)
  {
    AcyclicGrounded(t, a);
    GroundedIffNotOnCycle(t, a);
  }

  /** A row below a row below `a` is below `a`. */
  lemma {:induction false} SubtreeTrans(t: Table, z: int, path: seq<int>)
    requires IsPath(t, path) && path[|path| - 1] in Subtree(t, z)
    ensures path[0] in Subtree(t, z)
    decreases |path|
  {
    if |path| == 2 {
      SubtreeClosed(t, z, path[1], path[0]);
    } else {
      var rest := path[1..];
      assert IsPath(t, rest) by {
        forall i | 0 <= i < |rest| - 1 ensures rest[i] in t && t[rest[i]].parent == Some(rest[i + 1]) {
          assert rest[i] == path[i + 1] && rest[i + 1] == path[i + 2];
        }
      }
      SubtreeTrans(t, z, rest);
      assert path[0] in t && t[path[0]].parent == Some(path[1]);
      SubtreeClosed(t, z, path[1], path[0]);
    }
  }

  /** A cycle through `c` read from the parent of `c` is a cycle through that
      parent. */
  lemma Rotate(t: Table, cyc: seq<int>)
    requires IsPath(t, cyc) && cyc[0] == cyc[|cyc| - 1]
    ensures IsPath(t, cyc[1..] + [cyc[1]])
  {
    var r := cyc[1..] + [cyc[1]];
    forall i | 0 <= i < |r| - 1 ensures r[i] in t && t[r[i]].parent == Some(r[i + 1]) {
      if i < |cyc| - 2 {
        assert r[i] == cyc[i + 1] && r[i + 1] == cyc[i + 2];
      } else {
        assert r[i] == cyc[0] && r[i + 1] == cyc[1];
      }
    }
  }

  /** Parent links are a function, so a cycle through a row below `a` climbs
      on through `a`: `a` lies on that cycle too. */
  lemma {:induction false} CycleAbove(t: Table, path: seq<int>, cyc: seq<int>)
    requires IsPath(t, path) && IsPath(t, cyc)
    requires cyc[0] == path[0] && cyc[|cyc| - 1] == path[0]
    ensures Descends(t, path[|path| - 1], path[|path| - 1])
    decreases |path|
  {
    var c := path[0];
    assert t[c].parent == Some(path[1]) && t[c].parent == Some(cyc[1]);
    Rotate(t, cyc);
    var up := cyc[1..] + [cyc[1]];
    assert up[0] == path[1] && up[|up| - 1] == path[1];
    if |path| > 2 {
      var rest := path[1..];
      assert IsPath(t, rest) by {
        forall i | 0 <= i < |rest| - 1 ensures rest[i] in t && t[rest[i]].parent == Some(rest[i + 1]) {
          assert rest[i] == path[i + 1] && rest[i + 1] == path[i + 2];
        }
      }
      CycleAbove(t, rest, up);
      assert rest[|rest| - 1] == path[|path| - 1];
    }
  }

  /** A proper subset is smaller. */
  lemma ProperSubsetSmaller(x: set<int>, y: set<int>, w: int)
    requires x <= y && w in y && w !in x
    ensures |x| < |y|
  {
    assert y == x + (y - x);
    assert x * (y - x) == {};
    assert w in y - x;
  }

  /** Inside the subtree of a row that is on no cycle, the subtree of a
      child is strictly smaller than the subtree of its parent. */
  lemma ChildSubtreeSmaller(t: Table, a: int, c: int)
    requires a in t && !Descends(t, a, a)
    requires c in t && t[c].parent.Some? && t[c].parent.value in Subtree(t, a)
    ensures c in Subtree(t, a)
    ensures |Subtree(t, c)| < |Subtree(t, t[c].parent.value)|
  {
    var q := t[c].parent.value;
    SubtreeClosed(t, a, q, c);
    assert q in t && q in Subtree(t, q);
    SubtreeClosed(t, q, q, c);
    forall d | d in Subtree(t, c) ensures d in Subtree(t, q) {
      if d != c {
        var path :| IsPath(t, path) && path[0] == d && path[|path| - 1] == c;
        SubtreeTrans(t, q, path);
      }
    }
    if q in Subtree(t, c) {
      var cyc := [c, c];
      if q != c {
        var path :| IsPath(t, path) && path[0] == q && path[|path| - 1] == c;
        cyc := [c] + path;
        forall i | 0 <= i < |cyc| - 1 ensures cyc[i] in t && t[cyc[i]].parent == Some(cyc[i + 1]) {
          if i > 0 {
            assert cyc[i] == path[i - 1] && cyc[i + 1] == path[i];
          }
        }
      }
      assert IsPath(t, cyc) && cyc[0] == c && cyc[|cyc| - 1] == c;
      if c == a {
        assert Descends(t, a, a);
      } else {
        var up :| IsPath(t, up) && up[0] == c && up[|up| - 1] == a;
        CycleAbove(t, up, cyc);
      }
      assert false;
    }
    ProperSubsetSmaller(Subtree(t, c), Subtree(t, q), q);
  }

  /** The recursive delete from `a` can be ranked exactly when `a` lies on no
      cycle of parent links: cycles elsewhere in the table do not matter. */
  lemma GroundedIffNotOnCycle(t: Table, a: int)
    requires a in t
    ensures Grounded(t, a) <==> !Descends(t, a, a)
  {
    if Grounded(t, a) && Descends(t, a, a) {
      var h: map<int, nat> :| a in h && Ranked(t, h);
      var path :| IsPath(t, path) && path[0] == a && path[|path| - 1] == a;
      RankGrowsAlongPath(t, h, path);
    }
    if !Descends(t, a, a) {
      var s := Subtree(t, a);
      var h: map<int, nat> := map x | x in s :: |Subtree(t, x)|;
      forall c | c in t && t[c].parent.Some? && t[c].parent.value in h
        ensures c in h && h[c] < h[t[c].parent.value]
      {
        ChildSubtreeSmaller(t, a, c);
      }
      assert a in h;
    }
  }
}
