/**
 * The ordering of article listings by comment count: article records, the
 * two directions, what "sorted" and "stable" mean, and a reference stable
 * sort whose result is the unique sorted, tie-preserving rearrangement.
 */
module ArticleOrder {

  /** A query-string value that may be absent (JavaScript `undefined`). */
  datatype Option<T> = None | Some(value: T)

  /** One row of the article listing, as it reaches the sorting helper. */
  datatype Article = Article(
    article_id: int,
    title: string,
    topic: string,
    author: string,
    created_at: string,
    votes: int,
    article_img_url: string,
    comment_count: int
  )

  /** `x` may precede `y` in a listing sorted ascending (`asc`) or descending. */
  predicate InOrder(x: Article, y: Article, asc: bool)
  {
    if asc then x.comment_count <= y.comment_count else x.comment_count >= y.comment_count
  }

  /** Every earlier article may precede every later one. */
  predicate SortedBy(s: seq<Article>, asc: bool)
  {
    forall l, m :: 0 <= l < m < |s| ==> InOrder(s[l], s[m], asc)
  }

  /** The articles of `s` whose comment count is `k`, in their order in `s`. */
  function Ties(s: seq<Article>, k: int): (r: seq<Article>)
    ensures |r| <= |s|
    ensures forall i :: 0 <= i < |r| ==> r[i].comment_count == k
  {
    if s == [] then [] else (if s[0].comment_count == k then [s[0]] else []) + Ties(s[1..], k)
  }

  /** `r` keeps the relative order of every group of equal comment counts of `s`. */
  ghost predicate SameTies(r: seq<Article>, s: seq<Article>)
  {
    forall k :: Ties(r, k) == Ties(s, k)
  }

  lemma {:induction false} TiesAppend(a: seq<Article>, b: seq<Article>, k: int)
    ensures Ties(a + b, k) == Ties(a, k) + Ties(b, k)
  {
    if a == [] {
      assert a + b == b;
    } else {
      var h := if a[0].comment_count == k then [a[0]] else [];
      assert (a + b)[0] == a[0];
      assert (a + b)[1..] == a[1..] + b;
      TiesAppend(a[1..], b, k);
      assert Ties(a + b, k) == h + (Ties(a[1..], k) + Ties(b, k));
      assert Ties(a, k) == h + Ties(a[1..], k);
    }
  }

  lemma SameTiesTransitive(a: seq<Article>, b: seq<Article>, c: seq<Article>)
    requires SameTies(a, b) && SameTies(b, c)
    ensures SameTies(a, c)
  {
    forall k ensures Ties(a, k) == Ties(c, k) {
      assert Ties(a, k) == Ties(b, k);
    }
  }

  /** Inserts `x` into the sorted `s` before the first article it may precede. */
  function Insert(x: Article, s: seq<Article>, asc: bool): (r: seq<Article>)
  {
    if s == [] then [x]
    else if InOrder(x, s[0], asc) then [x] + s
    else [s[0]] + Insert(x, s[1..], asc)
  }

  /**
   * Reference stable sort by comment count: insertion sort from the back, each
   * article placed before the articles with its comment count already placed.
   */
  function StableSort(s: seq<Article>, asc: bool): (r: seq<Article>)
  {
    if s == [] then [] else Insert(s[0], StableSort(s[1..], asc), asc)
  }

  lemma {:induction false} InsertPermutes(x: Article, s: seq<Article>, asc: bool)
    ensures multiset(Insert(x, s, asc)) == multiset([x] + s)
  {
    if s != [] && !InOrder(x, s[0], asc) {
      InsertPermutes(x, s[1..], asc);
      assert s == [s[0]] + s[1..];
    }
  }

  /** Every article of `Insert(x, s, asc)` is `x` or an article of `s`. */
  lemma {:induction false} InsertMembers(x: Article, s: seq<Article>, asc: bool, e: Article)
    requires e in Insert(x, s, asc)
    ensures e == x || e in s
  {
    InsertPermutes(x, s, asc);
    assert e in multiset(Insert(x, s, asc));
    assert e in multiset([x] + s);
    assert e in [x] + s;
  }

  lemma ConsSorted(y: Article, t: seq<Article>, asc: bool)
    requires SortedBy(t, asc)
    requires forall e :: e in t ==> InOrder(y, e, asc)
    ensures SortedBy([y] + t, asc)
  {
    var u := [y] + t;
    forall l, m | 0 <= l < m < |u| ensures InOrder(u[l], u[m], asc) {
      assert u[m] == t[m - 1];
      if l > 0 {
        assert u[l] == t[l - 1];
      }
    }
  }

  lemma {:induction false} InsertSorted(x: Article, s: seq<Article>, asc: bool)
    requires SortedBy(s, asc)
    ensures SortedBy(Insert(x, s, asc), asc)
  {
    if s == [] {
    } else if InOrder(x, s[0], asc) {
      forall e | e in s ensures InOrder(x, e, asc) {
        var m :| 0 <= m < |s| && s[m] == e;
        if m > 0 {
          assert InOrder(s[0], s[m], asc);
        }
      }
      ConsSorted(x, s, asc);
    } else {
      var t := s[1..];
      SortedTail(s, asc);
      InsertSorted(x, t, asc);
      var r := Insert(x, t, asc);
      forall e | e in r ensures InOrder(s[0], e, asc) {
        InsertMembers(x, t, asc, e);
        if e != x {
          var m :| 0 <= m < |t| && t[m] == e;
          assert s[m + 1] == e;
        }
      }
      ConsSorted(s[0], r, asc);
    }
  }

  lemma {:induction false} InsertTies(x: Article, s: seq<Article>, asc: bool, k: int)
    ensures Ties(Insert(x, s, asc), k) == Ties([x] + s, k)
  {
    if s != [] && !InOrder(x, s[0], asc) {
      var t := s[1..];
      var a, b, c := Ties([s[0]], k), Ties([x], k), Ties(t, k);
      assert Insert(x, s, asc) == [s[0]] + Insert(x, t, asc);
      TiesAppend([s[0]], Insert(x, t, asc), k);
      InsertTies(x, t, asc, k);
      TiesAppend([x], t, k);
      assert Ties(Insert(x, s, asc), k) == a + (b + c);
      assert s == [s[0]] + t;
      TiesAppend([s[0]], t, k);
      TiesAppend([x], s, k);
      assert Ties([x] + s, k) == b + (a + c);
      assert x.comment_count != s[0].comment_count;
      assert a == [] || b == [];
      assert a + (b + c) == b + (a + c);
    }
  }

  /** The reference sort yields a sequence sorted in the chosen direction. */
  lemma {:induction false} StableSortSorted(s: seq<Article>, asc: bool)
    ensures SortedBy(StableSort(s, asc), asc)
  {
    if s != [] {
      StableSortSorted(s[1..], asc);
      InsertSorted(s[0], StableSort(s[1..], asc), asc);
    }
  }

  /** The reference sort is a permutation of its input. */
  lemma {:induction false} StableSortPermutes(s: seq<Article>, asc: bool)
    ensures multiset(StableSort(s, asc)) == multiset(s)
    ensures |StableSort(s, asc)| == |s|
  {
    if s != [] {
      StableSortPermutes(s[1..], asc);
      InsertPermutes(s[0], StableSort(s[1..], asc), asc);
      assert s == [s[0]] + s[1..];
      assert |StableSort(s, asc)| == |multiset(StableSort(s, asc))|;
    }
  }

  /** The reference sort is stable: every group of equal comment counts keeps its order. */
  lemma {:induction false} StableSortKeepsTies(s: seq<Article>, asc: bool)
    ensures SameTies(StableSort(s, asc), s)
  {
    if s != [] {
      StableSortKeepsTies(s[1..], asc);
      forall k ensures Ties(StableSort(s, asc), k) == Ties(s, k) {
        InsertTies(s[0], StableSort(s[1..], asc), asc, k);
        TiesAppend([s[0]], StableSort(s[1..], asc), k);
        TiesAppend([s[0]], s[1..], k);
        assert s == [s[0]] + s[1..];
      }
    }
  }

  /**
   * Two sequences sorted in the same direction that agree on every tie group
   * are equal: sortedness and stability together determine the result.
   */
  lemma {:induction false} SortedTiesUnique(r: seq<Article>, s: seq<Article>, asc: bool)
    requires SortedBy(r, asc) && SortedBy(s, asc)
    requires SameTies(r, s)
    ensures r == s
  {
    if r != [] {
      TiesOfFirst(r);
    }
    if s != [] {
      TiesOfFirst(s);
    }
    if r != [] && s != [] {
      var c, d := r[0].comment_count, s[0].comment_count;
      assert Ties(r, c) == [r[0]] + Ties(r[1..], c);
      assert Ties(s, d) == [s[0]] + Ties(s[1..], d);
      FirstIsExtreme(s, asc, c);
      FirstIsExtreme(r, asc, d);
      assert Ties(s, c) == [s[0]] + Ties(s[1..], c);
      assert r[0] == Ties(r, c)[0] == Ties(s, c)[0] == s[0];
      var r', s' := r[1..], s[1..];
      forall k ensures Ties(r', k) == Ties(s', k) {
        var p := if k == c then [r[0]] else [];
        assert Ties(r, k) == p + Ties(r', k);
        assert Ties(s, k) == p + Ties(s', k);
        assert Ties(r', k) == (p + Ties(r', k))[|p|..];
        assert Ties(s', k) == (p + Ties(s', k))[|p|..];
      }
      SortedTail(r, asc);
      SortedTail(s, asc);
      SortedTiesUnique(r', s', asc);
      assert r == [r[0]] + r' && s == [s[0]] + s';
    }
  }

  lemma TiesOfFirst(s: seq<Article>)
    requires s != []
    ensures Ties(s, s[0].comment_count) != []
  {
  }

  lemma SortedTail(s: seq<Article>, asc: bool)
    requires SortedBy(s, asc) && s != []
    ensures SortedBy(s[1..], asc)
  {
    var t := s[1..];
    forall l, m | 0 <= l < m < |t| ensures InOrder(t[l], t[m], asc) {
      assert t[l] == s[l + 1] && t[m] == s[m + 1];
    }
  }

  /**
   * The first article of a sorted `s` has the smallest (ascending) or largest
   * (descending) comment count of any article of `s`.
   */
  lemma {:induction false} FirstIsExtreme(s: seq<Article>, asc: bool, c: int)
    requires SortedBy(s, asc) && s != []
    requires Ties(s, c) != []
    ensures if asc then s[0].comment_count <= c else s[0].comment_count >= c
  {
    if s[0].comment_count != c {
      assert Ties(s, c) == Ties(s[1..], c);
      assert InOrder(s[0], s[1], asc);
      SortedTail(s, asc);
      FirstIsExtreme(s[1..], asc, c);
    }
  }

  /**
   * The reference sort is characterised by its two properties: a sequence is
   * the stable sort of `s` exactly when it is sorted and keeps every tie group of `s`.
   */
  lemma StableSortCharacterized(s: seq<Article>, r: seq<Article>, asc: bool)
    ensures r == StableSort(s, asc) <==> SortedBy(r, asc) && SameTies(r, s)
  {
    StableSortSorted(s, asc);
    StableSortKeepsTies(s, asc);
    if SortedBy(r, asc) && SameTies(r, s) {
      var t := StableSort(s, asc);
      assert SameTies(r, t) by {
        forall k ensures Ties(r, k) == Ties(t, k) {
          assert Ties(r, k) == Ties(s, k);
        }
      }
      SortedTiesUnique(r, t, asc);
    }
  }

  /** A listing already sorted in the chosen direction is left exactly as it is. */
  lemma SortedIsFixpoint(s: seq<Article>, asc: bool)
    requires SortedBy(s, asc)
    ensures StableSort(s, asc) == s
  {
    StableSortCharacterized(s, s, asc);
  }

  /** Sorting twice in the same direction gives the same listing as sorting once. */
  lemma StableSortIdempotent(s: seq<Article>, asc: bool)
    ensures StableSort(StableSort(s, asc), asc) == StableSort(s, asc)
  {
    StableSortSorted(s, asc);
    SortedIsFixpoint(StableSort(s, asc), asc);
  }
}
