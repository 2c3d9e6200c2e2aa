/** The three aggregates over a list of blogs: `dummy`, `totalLikes` and
    `favoriteBlog`. Each is written the way the source writes it, as a left
    fold (`reduce`) over the list, and is then related to an independent
    description of what it computes. */
module ListHelper {
  import opened Options

  /** A blog record. `likes` is a required integer here; the source's
      behaviour on a missing or non-numeric `likes` is not modelled. */
  datatype Blog = Blog(title: string, author: string, url: string, likes: int)

  // ---------------------------------------------------------------------
  // dummy
  // ---------------------------------------------------------------------

  /** The probe: one more than the number of blogs. */
  function Dummy(blogs: seq<Blog>): int {
    1 + |blogs|
  }

  /** `dummy` is 1 on the empty list and grows by one per blog, so it is
      always positive and counts the list from one. */
  lemma DummyCountsFromOne(blogs: seq<Blog>, b: Blog)
    ensures Dummy([]) == 1
    ensures Dummy(blogs) >= 1
    ensures Dummy(blogs + [b]) == Dummy(blogs) + 1
  {
  }

  // ---------------------------------------------------------------------
  // totalLikes
  // ---------------------------------------------------------------------

  /** Reference meaning of the total: the sum of the likes, taken from the
      right. */
  function Sum(blogs: seq<Blog>): int {
    if |blogs| == 0 then 0 else blogs[0].likes + Sum(blogs[1..])
  }

  /** One `reduce` step after another: `total` is the accumulator carried
      from the blogs already folded. */
  function SumFrom(total: int, blogs: seq<Blog>): (r: int)
    ensures r == total + Sum(blogs)
    decreases |blogs|
  {
    if |blogs| == 0 then total else SumFrom(total + blogs[0].likes, blogs[1..])
  }

  /** `totalLikes`: the fold started from 0. */
  function TotalLikes(blogs: seq<Blog>): (r: int)
    ensures r == Sum(blogs)
  {
    SumFrom(0, blogs)
  }

  /** The source's two small cases: the empty list totals 0 and a
      single blog totals its own likes. */
  lemma TotalLikesBaseCases(b: Blog)
    ensures TotalLikes([]) == 0
    ensures TotalLikes([b]) == b.likes
  {
    assert [b][1..] == [];
  }

  lemma {:induction false} SumAppend(a: seq<Blog>, b: seq<Blog>)
    ensures Sum(a + b) == Sum(a) + Sum(b)
    decreases |a|
  {
    if |a| == 0 {
      assert a + b == b;
    } else {
      assert (a + b)[0] == a[0];
      assert (a + b)[1..] == a[1..] + b;
      SumAppend(a[1..], b);
    }
  }

  /** The total of a concatenation is the sum of the totals. */
  lemma TotalLikesAppend(a: seq<Blog>, b: seq<Blog>)
    ensures TotalLikes(a + b) == TotalLikes(a) + TotalLikes(b)
  {
    SumAppend(a, b);
  }

  lemma {:induction false} SumCons(x: Blog, rest: seq<Blog>)
    ensures Sum([x] + rest) == x.likes + Sum(rest)
  {
    assert ([x] + rest)[1..] == rest;
  }

  /** Taking one blog out of the list takes exactly its likes off the sum. */
  lemma {:induction false} SumRemove(s: seq<Blog>, i: int)
    requires 0 <= i < |s|
    ensures Sum(s) == s[i].likes + Sum(s[..i] + s[i + 1..])
  {
    var left, x, right := s[..i], s[i], s[i + 1..];
    assert s == left + ([x] + right);
    SumAppend(left, [x] + right);
    SumCons(x, right);
    SumAppend(left, right);
  }

  /** Taking the element at `i` out of `s` takes one copy of it out of the
      multiset. */
  lemma {:induction false} MultisetRemove(s: seq<Blog>, i: int)
    requires 0 <= i < |s|
    ensures multiset(s[..i] + s[i + 1..]) == multiset(s) - multiset{s[i]}
  {
    assert s == s[..i] + [s[i]] + s[i + 1..];
  }

  /** A blog counted in the multiset of a list sits at some position of it. */
  lemma {:induction false} PositionOf(s: seq<Blog>, x: Blog) returns (i: int)
    requires x in multiset(s)
    ensures 0 <= i < |s| && s[i] == x
  {
    assert x in s;
    i :| 0 <= i < |s| && s[i] == x;
  }

  lemma {:induction false} MultisetTail(s: seq<Blog>)
    requires |s| > 0
    ensures multiset(s[1..]) == multiset(s) - multiset{s[0]}
  {
    assert s == [s[0]] + s[1..];
  }

  /** Two permutations of each other stay permutations once the first
      blog of one and a matching copy in the other are removed. */
  lemma {:induction false} PermutationTails(a: seq<Blog>, b: seq<Blog>, i: int)
    requires multiset(a) == multiset(b)
    requires |a| > 0 && 0 <= i < |b| && b[i] == a[0]
    ensures multiset(a[1..]) == multiset(b[..i] + b[i + 1..])
  {
    var one := multiset{a[0]};
    MultisetRemove(b, i);
    assert multiset(b[..i] + b[i + 1..]) == multiset(b) - one;
    MultisetTail(a);
    assert multiset(a[1..]) == multiset(a) - one;
  }

  lemma {:induction false} SumPermutation(a: seq<Blog>, b: seq<Blog>)
    requires multiset(a) == multiset(b)
    ensures Sum(a) == Sum(b)
    decreases |a|
  {
    if |a| == 0 {
      assert |b| == |multiset(b)| == 0;
    } else {
      var i := PositionOf(b, a[0]);
      PermutationTails(a, b, i);
      SumPermutation(a[1..], b[..i] + b[i + 1..]);
      SumRemove(b, i);
    }
  }

  /** Reordering the list does not change the total. */
  lemma TotalLikesPermutation(a: seq<Blog>, b: seq<Blog>)
    requires multiset(a) == multiset(b)
    ensures TotalLikes(a) == TotalLikes(b)
  {
    SumPermutation(a, b);
  }

  predicate NonNegativeLikes(blogs: seq<Blog>) {
    forall j :: 0 <= j < |blogs| ==> blogs[j].likes >= 0
  }

  lemma {:induction false} SumBounds(blogs: seq<Blog>)
    requires NonNegativeLikes(blogs)
    ensures Sum(blogs) >= 0
    ensures forall j :: 0 <= j < |blogs| ==> blogs[j].likes <= Sum(blogs)
    decreases |blogs|
  {
    if |blogs| > 0 {
      var tail := blogs[1..];
      assert NonNegativeLikes(tail) by {
        forall j | 0 <= j < |tail| ensures tail[j].likes >= 0 {
          assert tail[j] == blogs[j + 1];
        }
      }
      SumBounds(tail);
      forall j | 1 <= j < |blogs| ensures blogs[j].likes <= Sum(blogs) {
        assert blogs[j] == tail[j - 1];
      }
    }
  }

  /** With no negative likes the total is non-negative and bounds the
      likes of every blog in the list. */
  lemma TotalLikesBounds(blogs: seq<Blog>)
    requires NonNegativeLikes(blogs)
    ensures TotalLikes(blogs) >= 0
    ensures forall j :: 0 <= j < |blogs| ==> blogs[j].likes <= TotalLikes(blogs)
  {
    SumBounds(blogs);
  }

  // ---------------------------------------------------------------------
  // favoriteBlog
  // ---------------------------------------------------------------------

  /** `maxLikesBlog.likes || 0`: the empty accumulator `{}` reads as 0
      likes. For a blog, `likes || 0` is its likes, since 0 is the only
      falsy integer and maps to 0 either way. */
  function LikesOrZero(acc: Option<Blog>): int {
    match acc
    case None => 0
    case Some(b) => b.likes
  }

  /** One `reduce` step: the accumulator survives only when its likes are
      strictly greater than the current blog's; otherwise the current blog
      takes its place. */
  function Keep(acc: Option<Blog>, blog: Blog): Option<Blog> {
    if LikesOrZero(acc) > blog.likes then acc else Some(blog)
  }

  function FavoriteFrom(acc: Option<Blog>, blogs: seq<Blog>): Option<Blog>
    decreases |blogs|
  {
    if |blogs| == 0 then acc else FavoriteFrom(Keep(acc, blogs[0]), blogs[1..])
  }

  /** `favoriteBlog`: the fold started from the empty object, with `None`
      standing for `{}`. */
  function FavoriteBlog(blogs: seq<Blog>): Option<Blog> {
    FavoriteFrom(None, blogs)
  }

  /** Index `i` holds a blog with the greatest likes, and no later blog
      reaches that many: `i` is the last position of the maximum. */
  predicate IsLastMaximum(blogs: seq<Blog>, i: int) {
    && 0 <= i < |blogs|
    && (forall j :: 0 <= j < |blogs| ==> blogs[j].likes <= blogs[i].likes)
    && (forall j :: i < j < |blogs| ==> blogs[j].likes < blogs[i].likes)
  }

  predicate AllNegative(blogs: seq<Blog>) {
    forall j :: 0 <= j < |blogs| ==> blogs[j].likes < 0
  }

  /** Folding one more blog onto the end is one more `Keep` step. */
  lemma {:induction false} FavoriteFromSnoc(acc: Option<Blog>, s: seq<Blog>, x: Blog)
    ensures FavoriteFrom(acc, s + [x]) == Keep(FavoriteFrom(acc, s), x)
    decreases |s|
  {
    if |s| == 0 {
      assert s + [x] == [x];
      assert [x][1..] == [];
    } else {
      assert (s + [x])[0] == s[0];
      assert (s + [x])[1..] == s[1..] + [x];
      FavoriteFromSnoc(Keep(acc, s[0]), s[1..], x);
    }
  }

  /** What `favoriteBlog` returns, for every list: the empty marker exactly
      when every blog has negative likes (which includes the empty list),
      and otherwise the blog at the last position of the maximum. */
  lemma {:induction false} FavoriteBlogIsLastMaximum(blogs: seq<Blog>)
    ensures FavoriteBlog(blogs).None? <==> AllNegative(blogs)
    ensures FavoriteBlog(blogs).Some? ==>
      exists i :: IsLastMaximum(blogs, i) && blogs[i] == FavoriteBlog(blogs).value
    decreases |blogs|
  {
    if |blogs| > 0 {
      var n := |blogs| - 1;
      var p, x := blogs[..n], blogs[n];
      assert blogs == p + [x];
      FavoriteFromSnoc(None, p, x);
      FavoriteBlogIsLastMaximum(p);
      var prev := FavoriteBlog(p);
      assert FavoriteBlog(blogs) == Keep(prev, x);
      match prev
      case None =>
        assert AllNegative(p);
        if 0 <= x.likes {
          assert IsLastMaximum(blogs, n);
        }
      case Some(b) =>
        var i :| IsLastMaximum(p, i) && p[i] == b;
        assert b.likes >= 0 by {
          assert !AllNegative(p);
          var k :| 0 <= k < |p| && p[k].likes >= 0;
        }
        if b.likes > x.likes {
          assert IsLastMaximum(blogs, i) && blogs[i] == b;
        } else {
          assert IsLastMaximum(blogs, n);
        }
    }
  }

  /** The last maximum is unique: once `i` is one, no other index is, so
      the characterisation above determines the result completely. */
  lemma LastMaximumUnique(blogs: seq<Blog>, i: int, k: int)
    requires IsLastMaximum(blogs, i)
    requires 0 <= k < |blogs| && k != i
    ensures !IsLastMaximum(blogs, k)
  {
    if i < k {
      assert blogs[k].likes < blogs[i].likes;
    } else {
      assert blogs[i].likes >= blogs[k].likes;
    }
  }

  /** The converse reading: whenever position `i` is the last maximum and
      that maximum is not negative, `favoriteBlog` returns exactly the blog
      at `i`. */
  lemma FavoriteBlogIsAtLastMaximum(blogs: seq<Blog>, i: int)
    requires IsLastMaximum(blogs, i) && blogs[i].likes >= 0
    ensures FavoriteBlog(blogs) == Some(blogs[i])
  {
    FavoriteBlogIsLastMaximum(blogs);
    assert !AllNegative(blogs);
    var k :| IsLastMaximum(blogs, k) && blogs[k] == FavoriteBlog(blogs).value;
    if k != i {
      LastMaximumUnique(blogs, i, k);
    }
  }

  /** The empty list gives the empty marker. */
  lemma FavoriteBlogEmpty()
    ensures FavoriteBlog([]) == None
  {
  }

  /** With no negative likes and at least one blog, the result is a blog
      of the list whose likes are at least every blog's likes. */
  lemma FavoriteBlogOfNonNegative(blogs: seq<Blog>)
    requires |blogs| > 0 && NonNegativeLikes(blogs)
    ensures FavoriteBlog(blogs).Some?
    ensures FavoriteBlog(blogs).value in blogs
    ensures forall j :: 0 <= j < |blogs| ==> blogs[j].likes <= FavoriteBlog(blogs).value.likes
  {
    FavoriteBlogIsLastMaximum(blogs);
    assert !AllNegative(blogs) by {
      assert blogs[0].likes >= 0;
    }
  }

  /** Because the empty accumulator compares as 0 likes, a list in which
      every blog has negative likes still gives the empty marker. */
  lemma FavoriteBlogAllNegative(blogs: seq<Blog>)
    requires AllNegative(blogs)
    ensures FavoriteBlog(blogs) == None
  {
    FavoriteBlogIsLastMaximum(blogs);
  }

  /** A tie goes to the later blog: two blogs with equal likes give the
      second, not the first. */
  lemma FavoriteBlogTieGoesToLast(first: Blog, second: Blog)
    requires first.likes == second.likes >= 0
    ensures FavoriteBlog([first, second]) == Some(second)
  {
    assert [first, second][1..] == [second];
    assert [second][1..] == [];
    assert Keep(None, first) == Some(first);
    assert FavoriteBlog([first, second]) == FavoriteFrom(Some(first), [second]);
    assert Keep(Some(first), second) == Some(second);
  }
}
