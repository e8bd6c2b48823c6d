/**
 * The listing helper that reorders articles by comment count, in place, in
 * the direction given by `direction`.
 */
module UtilFunctions {
  import opened ArticleOrder

  /** The listing is ascending only when the direction is exactly the string "asc". */
  function IsAscending(direction: Option<string>): (asc: bool)
    ensures asc <==> direction.Some? && direction.value == "asc"
  {
    direction == Some("asc")
  }

  /** "desc", a missing value and any other spelling of "asc" all select descending order. */
  lemma OnlyExactAscIsAscending()
    ensures IsAscending(Some("asc"))
    ensures !IsAscending(Some("desc")) && !IsAscending(None)
    ensures !IsAscending(Some("ASC")) && !IsAscending(Some("Asc")) && !IsAscending(Some(""))
  {
  }

  /**
   * The comparator handed to the sort: the difference of comment counts,
   * first minus second when ascending, second minus first otherwise.
   * A negative result puts `article1` first, a positive one `article2`.
   */
  function CompareByCommentCount(article1: Article, article2: Article, asc: bool): (r: int)
    ensures r <= 0 <==> InOrder(article1, article2, asc)
    ensures r >= 0 <==> InOrder(article2, article1, asc)
    ensures r == 0 <==> article1.comment_count == article2.comment_count
  {
    if asc then article1.comment_count - article2.comment_count
    else article2.comment_count - article1.comment_count
  }

  /**
   * Sorts `articles` in place by comment count, stably, and returns the same
   * array. The sort is an insertion sort that only exchanges neighbours
   * the comparator reports as out of order.
   */
  method SortArticlesByCommentCount(articles: array<Article>, direction: Option<string>)
    returns (sorted: array<Article>)
    modifies articles
    ensures sorted == articles
    ensures articles[..] == StableSort(old(articles[..]), IsAscending(direction))
    ensures direction == Some("asc") ==> SortedBy(articles[..], true)
    ensures direction != Some("asc") ==> SortedBy(articles[..], false)
    ensures multiset(articles[..]) == multiset(old(articles[..]))
    ensures SameTies(articles[..], old(articles[..]))
    ensures SortedBy(old(articles[..]), IsAscending(direction)) ==> articles[..] == old(articles[..])
    ensures articles.Length <= 1 ==> articles[..] == old(articles[..])
  {
    var asc := IsAscending(direction);
    ghost var input := articles[..];
    var i := 0;
    while i < articles.Length
      invariant 0 <= i <= articles.Length
      invariant SortedBy(articles[..i], asc)
      invariant SameTies(articles[..], input)
    {
      ghost var before := articles[..];
      InsertIntoSortedPrefix(articles, i, asc);
      SameTiesTransitive(articles[..], before, input);
      i := i + 1;
    }
    sorted := articles;
    assert articles[..] == articles[..articles.Length];
    StableSortCharacterized(input, articles[..], asc);
    StableSortPermutes(input, asc);
    if SortedBy(input, asc) {
      SortedIsFixpoint(input, asc);
    }
  }

  /**
   * One pass of the insertion sort: moves `articles[i]` left past every
   * article the comparator puts after it, so that the first `i + 1`
   * articles are sorted; the rest of the array is untouched.
   */
  method InsertIntoSortedPrefix(articles: array<Article>, i: nat, asc: bool)
    requires i < articles.Length
    requires SortedBy(articles[..i], asc)
    modifies articles
    ensures SortedBy(articles[..i + 1], asc)
    ensures SameTies(articles[..], old(articles[..]))
    ensures articles[i + 1..] == old(articles[i + 1..])
  {
    ghost var input := articles[..];
    var j := i;
    while j > 0 && CompareByCommentCount(articles[j - 1], articles[j], asc) > 0
      invariant 0 <= j <= i
      invariant articles[..] == Moved(input, i, j)
      invariant SkippedAll(input, i, j, asc)
    {
      MovedAt(input, i, j);
      SkippedOneMore(input, i, j, asc);
      MovedStep(input, i, j);
      articles[j - 1], articles[j] := articles[j], articles[j - 1];
      j := j - 1;
    }
    MovedAt(input, i, j);
    MovedIsSortedPass(input, i, j, asc);
  }

  /** The comparator puts every article of `s[j..i]` after `s[i]`. */
  ghost predicate SkippedAll(s: seq<Article>, i: nat, j: nat, asc: bool)
    requires j <= i < |s|
  {
    forall m :: j <= m < i ==> CompareByCommentCount(s[m], s[i], asc) > 0
  }

  lemma SkippedOneMore(s: seq<Article>, i: nat, j: nat, asc: bool)
    requires 0 < j <= i < |s|
    requires SkippedAll(s, i, j, asc)
    requires CompareByCommentCount(s[j - 1], s[i], asc) > 0
    ensures SkippedAll(s, i, j - 1, asc)
  {
  }

  /** `s` with its article at `i` moved to position `j <= i`. */
  function Moved(s: seq<Article>, i: nat, j: nat): (r: seq<Article>)
    requires j <= i < |s|
    ensures |r| == |s|
  {
    s[..j] + [s[i]] + s[j..i] + s[i + 1..]
  }

  /** No article of `s` has comment count `k`. */
  lemma {:induction false} NoTies(s: seq<Article>, k: int)
    requires forall m :: 0 <= m < |s| ==> s[m].comment_count != k
    ensures Ties(s, k) == []
  {
    if s != [] {
      NoTies(s[1..], k);
    }
  }

  /** Where the moved article and its left neighbour are, and that the tail is untouched. */
  lemma MovedAt(s: seq<Article>, i: nat, j: nat)
    requires j <= i < |s|
    ensures Moved(s, i, j)[j] == s[i]
    ensures j > 0 ==> Moved(s, i, j)[j - 1] == s[j - 1]
    ensures Moved(s, i, j)[i + 1..] == s[i + 1..]
  {
  }

  /** Moving the article one more place left exchanges two neighbours. */
  lemma MovedStep(s: seq<Article>, i: nat, j: nat)
    requires 0 < j <= i < |s|
    ensures Moved(s, i, j)[j - 1 := s[i]][j := s[j - 1]] == Moved(s, i, j - 1)
  {
    var a, b := Moved(s, i, j)[j - 1 := s[i]][j := s[j - 1]], Moved(s, i, j - 1);
    forall m | 0 <= m < |s| ensures a[m] == b[m] {
      if m < j - 1 {
      } else if m == j - 1 || m == j {
      } else if m <= i {
        assert a[m] == s[m - 1];
      } else {
        assert a[m] == s[m];
      }
    }
  }

  /**
   * Where the pass stops: the comparator put every skipped article after the
   * moved one and did not put the one before it (if any) after it. Then the
   * first `i + 1` articles are sorted and every tie group is kept.
   */
  lemma MovedIsSortedPass(s: seq<Article>, i: nat, j: nat, asc: bool)
    requires j <= i < |s|
    requires SortedBy(s[..i], asc)
    requires SkippedAll(s, i, j, asc)
    requires j > 0 ==> CompareByCommentCount(s[j - 1], s[i], asc) <= 0
    ensures SortedBy(Moved(s, i, j)[..i + 1], asc)
    ensures SameTies(Moved(s, i, j), s)
  {
    MovedIsSorted(s, i, j, asc);
    MovedKeepsTies(s, i, j);
  }

  /**
   * Where the pass stops: every article skipped is strictly after the moved
   * one, and the one before it (if any) may precede it. Then the first
   * `i + 1` articles are sorted.
   */
  lemma MovedIsSorted(s: seq<Article>, i: nat, j: nat, asc: bool)
    requires j <= i < |s|
    requires SortedBy(s[..i], asc)
    requires forall m :: j <= m < i ==> InOrder(s[i], s[m], asc)
    requires j > 0 ==> InOrder(s[j - 1], s[i], asc)
    ensures SortedBy(Moved(s, i, j)[..i + 1], asc)
  {
    var r := Moved(s, i, j)[..i + 1];
    assert forall x :: 0 <= x < |r| ==> r[x] == (if x < j then s[x] else if x == j then s[i] else s[x - 1]);
    forall l, m | 0 <= l < m < |r| ensures InOrder(r[l], r[m], asc) {
      if m < j {
        assert InOrder(s[..i][l], s[..i][m], asc);
      } else if m == j {
        if l < j - 1 {
          assert InOrder(s[..i][l], s[..i][j - 1], asc);
        }
      } else if l == j {
        assert InOrder(s[i], s[m - 1], asc);
      } else if l < j {
        assert InOrder(s[..i][l], s[..i][m - 1], asc);
      } else {
        assert InOrder(s[..i][l - 1], s[..i][m - 1], asc);
      }
    }
  }

  /** An article commutes, tie-group-wise, with articles of other comment counts. */
  lemma TiesCommute(x: Article, q: seq<Article>, k: int)
    requires forall m :: 0 <= m < |q| ==> q[m].comment_count != x.comment_count
    ensures Ties([x] + q, k) == Ties(q + [x], k)
  {
    TiesAppend([x], q, k);
    TiesAppend(q, [x], k);
    if k == x.comment_count {
      NoTies(q, k);
    } else {
      assert Ties([x], k) == [];
    }
  }

  /** Moving an article left past articles with other comment counts keeps every tie group. */
  lemma MovedKeepsTies(s: seq<Article>, i: nat, j: nat)
    requires j <= i < |s|
    requires forall m :: j <= m < i ==> s[m].comment_count != s[i].comment_count
    ensures SameTies(Moved(s, i, j), s)
  {
    var x, p, q, rest := s[i], s[..j], s[j..i], s[i + 1..];
    var moved, kept := [x] + q, q + [x];
    assert Moved(s, i, j) == p + moved + rest;
    assert s == p + kept + rest;
    forall m | 0 <= m < |q| ensures q[m].comment_count != x.comment_count {
      assert q[m] == s[j + m];
    }
    forall k ensures Ties(p + moved + rest, k) == Ties(p + kept + rest, k) {
      TiesCommute(x, q, k);
      TiesAppend(p + moved, rest, k);
      TiesAppend(p, moved, k);
      TiesAppend(p + kept, rest, k);
      TiesAppend(p, kept, k);
    }
  }
}
