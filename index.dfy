/**
 * The index page's build state (src/templates/index.rs): one post per blog
 * directory, sorted by date with a stable in-place sort and then reversed,
 * so that the newest post comes first; each entry links to `post/<path>`.
 */
module Index {
  import opened Wrappers
  import opened Data

  // ------------------------------------------------------------ build posts

  /**
   * `.iter().map(get_post_for_path).collect()`: the post of every directory,
   * in order; the first directory whose post cannot be built stops the build.
   */
  function BuildPosts(dirs: seq<string>, env: Env): (r: Result<seq<Post>, PostError>)
    ensures r.Ok? ==> |r.value| == |dirs|
    ensures r.Ok? ==> forall i :: 0 <= i < |dirs| ==> PostForPath(dirs[i], env) == Ok(r.value[i])
    ensures r.Ok? <==> forall i :: 0 <= i < |dirs| ==> PostForPath(dirs[i], env).Ok?
    ensures r.Err? ==> exists i :: (0 <= i < |dirs| && PostForPath(dirs[i], env) == Err(r.error)
      && forall j :: 0 <= j < i ==> PostForPath(dirs[j], env).Ok?)
  {
    if dirs == [] then Ok([])
    else match PostForPath(dirs[0], env)
      case Err(e) => Err(e)
      case Ok(post) =>
        match BuildPosts(dirs[1..], env)
        case Err(e) =>
          ghost var i :| 0 <= i < |dirs[1..]| && PostForPath(dirs[1..][i], env) == Err(e)
            && forall j :: 0 <= j < i ==> PostForPath(dirs[1..][j], env).Ok?;
          assert PostForPath(dirs[i + 1], env) == Err(e);
          Err(e)
        case Ok(posts) => Ok([post] + posts)
  }

  /** Each built post carries the path of its own directory. */
  lemma BuiltPostPaths(dirs: seq<string>, env: Env)
    requires BuildPosts(dirs, env).Ok?
    ensures forall i :: 0 <= i < |dirs| ==> BuildPosts(dirs, env).value[i].path == dirs[i]
  {
  }

  // ------------------------------------------------------------- ordering

  /** Oldest first: dates never decrease along `s`. */
  ghost predicate SortedByDate(s: seq<Post>) {
    forall i, j :: 0 <= i < j < |s| ==> s[i].date <= s[j].date
  }

  /** Newest first: dates never increase along `s`. */
  ghost predicate NewestFirst(s: seq<Post>) {
    forall i, j :: 0 <= i < j < |s| ==> s[i].date >= s[j].date
  }

  /** The posts of `s` dated `d`, in their order in `s`. */
  function WithDate(s: seq<Post>, d: Instant): (r: seq<Post>)
    ensures |r| <= |s|
    ensures forall k :: 0 <= k < |r| ==> r[k].date == d && r[k] in s
  {
    if s == [] then []
    else (if s[0].date == d then [s[0]] else []) + WithDate(s[1..], d)
  }

  lemma {:induction false} WithDateAppend(s: seq<Post>, t: seq<Post>, d: Instant)
    ensures WithDate(s + t, d) == WithDate(s, d) + WithDate(t, d)
  {
    if s == [] {
      assert s + t == t;
    } else {
      assert (s + t)[0] == s[0];
      assert (s + t)[1..] == s[1..] + t;
      WithDateAppend(s[1..], t, d);
    }
  }

  /** The occurrences of a post are all among the posts of its date. */
  lemma {:induction false} CountWithinDate(s: seq<Post>, x: Post)
    ensures multiset(s)[x] == multiset(WithDate(s, x.date))[x]
  {
    if s != [] {
      assert s == [s[0]] + s[1..];
      CountWithinDate(s[1..], x);
    }
  }

  /**
   * Two sequences that agree on the posts of every date are permutations of
   * each other: a stable sort adds and drops nothing.
   */
  lemma SameDatesSamePosts(s: seq<Post>, t: seq<Post>)
    requires forall d :: WithDate(s, d) == WithDate(t, d)
    ensures multiset(s) == multiset(t)
  {
    forall x ensures multiset(s)[x] == multiset(t)[x] {
      CountWithinDate(s, x);
      CountWithinDate(t, x);
    }
  }

  /** A post alone keeps its place among the posts of its date. */
  lemma WithDatePair(x: Post, y: Post, d: Instant)
    requires x.date != y.date
    ensures WithDate([x, y], d) == WithDate([y, x], d)
  {
    assert [x, y][1..] == [y];
    assert [y, x][1..] == [x];
  }

  /** Exchanging two neighbours of different dates leaves the posts of date `d` in order. */
  lemma SwapKeepsDate(s: seq<Post>, j: nat, d: Instant)
    requires j + 1 < |s| && s[j].date != s[j + 1].date
    ensures WithDate(s[j := s[j + 1]][j + 1 := s[j]], d) == WithDate(s, d)
  {
    var front, back := s[..j], s[j + 2..];
    assert s == front + [s[j], s[j + 1]] + back;
    assert s[j := s[j + 1]][j + 1 := s[j]] == front + [s[j + 1], s[j]] + back;
    WithDateAppend(front + [s[j], s[j + 1]], back, d);
    WithDateAppend(front, [s[j], s[j + 1]], d);
    WithDateAppend(front + [s[j + 1], s[j]], back, d);
    WithDateAppend(front, [s[j + 1], s[j]], d);
    WithDatePair(s[j], s[j + 1], d);
  }

  /** Exchanges `a[j - 1]` and `a[j]`, two posts of different dates. */
  method SwapDown(a: array<Post>, j: nat)
    requires 0 < j < a.Length && a[j - 1].date != a[j].date
    modifies a
    ensures a[..] == old(a[..])[j - 1 := old(a[j])][j := old(a[j - 1])]
    ensures forall d :: WithDate(a[..], d) == WithDate(old(a[..]), d)
  {
    a[j - 1], a[j] := a[j], a[j - 1];
    forall d ensures WithDate(a[..], d) == WithDate(old(a[..]), d) {
      SwapKeepsDate(old(a[..]), j - 1, d);
    }
  }

  /**
   * Placing `x` into a sorted list after the posts dated no later than it and
   * before the posts dated later keeps the list sorted.
   */
  lemma InsertKeepsSorted(p: seq<Post>, j: nat, x: Post)
    requires SortedByDate(p) && j <= |p|
    requires j > 0 ==> p[j - 1].date <= x.date
    requires j < |p| ==> x.date < p[j].date
    ensures SortedByDate(p[..j] + [x] + p[j..])
  {
  }

  /** Swapping the inserted post `x` one place down moves it past `prefix[j - 1]`. */
  lemma SwapStep(before: seq<Post>, after: seq<Post>, prefix: seq<Post>, x: Post, i: nat, j: nat)
    requires 0 < j <= i < |before| && |prefix| == i
    requires before[..j] == prefix[..j] && before[j] == x && before[j + 1..i + 1] == prefix[j..]
    requires after == before[j - 1 := before[j]][j := before[j - 1]]
    ensures after[..j - 1] == prefix[..j - 1] && after[j - 1] == x && after[j..i + 1] == prefix[j - 1..]
    ensures after[i + 1..] == before[i + 1..]
  {
    assert before[j - 1] == prefix[j - 1];
    assert after[..j - 1] == before[..j - 1];
    assert after[j..i + 1] == [before[j - 1]] + before[j + 1..i + 1];
  }

  /** When the loop of `InsertAt` stops, `x` sits at `j` between the two parts of the old prefix. */
  lemma InsertedShape(s: seq<Post>, orig: seq<Post>, i: nat, j: nat)
    requires j <= i < |s| && i < |orig|
    requires s[..j] == orig[..j] && s[j] == orig[i] && s[j + 1..i + 1] == orig[j..i]
    ensures s[..i + 1] == orig[..j] + [orig[i]] + orig[j..i]
  {
    assert s[..i + 1] == s[..j] + [s[j]] + s[j + 1..i + 1];
  }

  /**
   * One step of the sort: moves `a[i]` down past the later-dated posts of the
   * sorted prefix `a[..i]`, never past a post of the same date.
   */
  method InsertAt(a: array<Post>, i: nat)
    requires i < a.Length && SortedByDate(a[..i])
    modifies a
    ensures SortedByDate(a[..i + 1])
    ensures forall d :: WithDate(a[..], d) == WithDate(old(a[..]), d)
    ensures exists j :: 0 <= j <= i && a[..i + 1] == old(a[..j]) + [old(a[i])] + old(a[j..i])
    ensures a[i + 1..] == old(a[i + 1..])
  {
    ghost var orig := a[..];
    ghost var prefix, x := orig[..i], orig[i];
    var j := i;
    while j > 0 && a[j - 1].date > a[j].date
      invariant 0 <= j <= i
      invariant a[..j] == prefix[..j] && a[j] == x && a[j + 1..i + 1] == prefix[j..]
      invariant a[i + 1..] == orig[i + 1..]
      invariant j < i ==> x.date < prefix[j].date
      invariant forall d :: WithDate(a[..], d) == WithDate(old(a[..]), d)
    {
      ghost var before := a[..];
      SwapDown(a, j);
      SwapStep(before, a[..], prefix, x, i, j);
      j := j - 1;
    }
    InsertKeepsSorted(prefix, j, x);
    InsertedShape(a[..], orig, i, j);
  }

  /**
   * `posts.sort_by_key(|post| post.date)`: a stable sort in place. Afterwards
   * the dates are in order and the posts of each date are in their old order.
   */
  method SortByDate(a: array<Post>)
    modifies a
    ensures SortedByDate(a[..])
    ensures forall d :: WithDate(a[..], d) == WithDate(old(a[..]), d)
  {
    var i := 0;
    while i < a.Length
      invariant 0 <= i <= a.Length
      invariant SortedByDate(a[..i])
      invariant forall d :: WithDate(a[..], d) == WithDate(old(a[..]), d)
    {
      InsertAt(a, i);
      i := i + 1;
    }
    assert a[..a.Length] == a[..];
  }

  /** `.into_iter().rev().collect()`. */
  function Reversed<T>(s: seq<T>): (r: seq<T>)
    ensures |r| == |s|
  {
    if s == [] then [] else Reversed(s[1..]) + [s[0]]
  }

  lemma {:induction false} ReversedAt<T>(s: seq<T>, k: nat)
    requires k < |s|
    ensures Reversed(s)[k] == s[|s| - 1 - k]
  {
    if k < |s| - 1 {
      ReversedAt(s[1..], k);
    }
  }

  lemma {:induction false} ReversedAppend<T>(s: seq<T>, t: seq<T>)
    ensures Reversed(s + t) == Reversed(t) + Reversed(s)
  {
    if s == [] {
      assert s + t == t;
    } else {
      assert (s + t)[0] == s[0];
      assert (s + t)[1..] == s[1..] + t;
      ReversedAppend(s[1..], t);
    }
  }

  /** Reversing keeps every element: it is a permutation. */
  lemma {:induction false} ReversedPermutes<T>(s: seq<T>)
    ensures multiset(Reversed(s)) == multiset(s)
  {
    if s != [] {
      assert s == [s[0]] + s[1..];
      ReversedPermutes(s[1..]);
    }
  }

  /** Reversing a list turns the posts of each date into their reverse. */
  lemma {:induction false} ReversedWithDate(s: seq<Post>, d: Instant)
    ensures WithDate(Reversed(s), d) == Reversed(WithDate(s, d))
  {
    if s != [] {
      var head := if s[0].date == d then [s[0]] else [];
      ReversedWithDate(s[1..], d);
      WithDateAppend(Reversed(s[1..]), [s[0]], d);
      ReversedAppend(head, WithDate(s[1..], d));
      assert WithDate([s[0]], d) == head;
      assert Reversed(head) == head;
    }
  }

  /** Reversing an oldest-first list gives a newest-first one. */
  lemma ReversedSortedIsNewestFirst(s: seq<Post>)
    requires SortedByDate(s)
    ensures NewestFirst(Reversed(s))
  {
    forall i, j | 0 <= i < j < |s| ensures Reversed(s)[i].date >= Reversed(s)[j].date {
      ReversedAt(s, i);
      ReversedAt(s, j);
    }
  }

  /** A newest-first list begins with a post of its latest date. */
  lemma FirstIsLatest(s: seq<Post>, d: Instant)
    requires NewestFirst(s) && WithDate(s, d) != []
    ensures s != [] && s[0].date >= d
  {
    var x := WithDate(s, d)[0];
    assert x.date == d && x in s;
  }

  /** Dropping the first post removes it from the posts of its date only. */
  lemma WithDateTail(s: seq<Post>, d: Instant)
    requires s != []
    ensures WithDate(s, d) == (if s[0].date == d then [s[0]] + WithDate(s[1..], d) else WithDate(s[1..], d))
  {
  }

  /** Two newest-first lists that agree on every date begin with the same post. */
  lemma SameFirst(s: seq<Post>, t: seq<Post>)
    requires NewestFirst(s) && NewestFirst(t) && s != []
    requires forall d :: WithDate(s, d) == WithDate(t, d)
    ensures t != [] && s[0] == t[0]
  {
    var d := s[0].date;
    WithDateTail(s, d);
    assert WithDate(t, d) != [];
    FirstIsLatest(t, d);
    var e := t[0].date;
    WithDateTail(t, e);
    assert WithDate(s, e) != [];
    FirstIsLatest(s, e);
    assert d == e;
    WithDateTail(t, d);
    assert s[0] == WithDate(s, d)[0] == WithDate(t, d)[0] == t[0];
  }

  /** Removing the same first post keeps two lists in agreement on every date. */
  lemma SameRest(s: seq<Post>, t: seq<Post>)
    requires s != [] && t != [] && s[0] == t[0]
    requires forall d :: WithDate(s, d) == WithDate(t, d)
    ensures forall d :: WithDate(s[1..], d) == WithDate(t[1..], d)
  {
    forall d ensures WithDate(s[1..], d) == WithDate(t[1..], d) {
      WithDateTail(s, d);
      WithDateTail(t, d);
      if s[0].date == d {
        assert WithDate(s, d)[1..] == WithDate(s[1..], d);
        assert WithDate(t, d)[1..] == WithDate(t[1..], d);
      }
    }
  }

  /**
   * A list that is newest first is determined by the order of the posts within
   * each date: two such lists that agree on every date are equal.
   */
  lemma {:induction false} NewestFirstIsDetermined(s: seq<Post>, t: seq<Post>)
    requires NewestFirst(s) && NewestFirst(t)
    requires forall d :: WithDate(s, d) == WithDate(t, d)
    ensures s == t
    decreases |s|
  {
    if s == [] {
      if t != [] {
        SameFirst(t, s);
      }
    } else {
      SameFirst(s, t);
      SameRest(s, t);
      assert NewestFirst(s[1..]) && NewestFirst(t[1..]) by {
        forall i, j | 0 <= i < j < |s| - 1 ensures s[1..][i].date >= s[1..][j].date {
          assert s[1..][i] == s[i + 1] && s[1..][j] == s[j + 1];
        }
        forall i, j | 0 <= i < j < |t| - 1 ensures t[1..][i].date >= t[1..][j].date {
          assert t[1..][i] == t[i + 1] && t[1..][j] == t[j + 1];
        }
      }
      NewestFirstIsDetermined(s[1..], t[1..]);
      assert s == [s[0]] + s[1..] && t == [t[0]] + t[1..];
    }
  }

  /** Reversing twice gives back the list. */
  lemma ReversedTwice<T>(s: seq<T>)
    ensures Reversed(Reversed(s)) == s
  {
    forall k | 0 <= k < |s| ensures Reversed(Reversed(s))[k] == s[k] {
      ReversedAt(Reversed(s), k);
      ReversedAt(s, |s| - 1 - k);
    }
  }

  /**
   * The contract of `SortByDate` fixes its result: two oldest-first lists that
   * agree on the posts of every date are equal.
   */
  lemma SortedIsDetermined(s: seq<Post>, t: seq<Post>)
    requires SortedByDate(s) && SortedByDate(t)
    requires forall d :: WithDate(s, d) == WithDate(t, d)
    ensures s == t
  {
    ReversedSortedIsNewestFirst(s);
    ReversedSortedIsNewestFirst(t);
    forall d ensures WithDate(Reversed(s), d) == WithDate(Reversed(t), d) {
      ReversedWithDate(s, d);
      ReversedWithDate(t, d);
    }
    NewestFirstIsDetermined(Reversed(s), Reversed(t));
    ReversedTwice(s);
    ReversedTwice(t);
  }

  /**
   * `index` lists the posts of `built` newest first: as many of them, the same
   * posts, dates never increasing, and the posts of each date in the reverse
   * of their order in `built`.
   */
  ghost predicate IndexOrder(index: seq<Post>, built: seq<Post>) {
    && |index| == |built|
    && multiset(index) == multiset(built)
    && NewestFirst(index)
    && forall d :: WithDate(index, d) == Reversed(WithDate(built, d))
  }

  /**
   * `get_build_state`: build one post per blog directory, sort them by date
   * and reverse, so that the index lists the newest post first and posts of
   * the same date in the reverse of their directory order.
   */
  method BuildState(listing: seq<DirEntry>, env: Env) returns (r: Result<seq<Post>, PostError>)
    ensures BuildPosts(BlogDirectories(listing), env).Err? ==>
      r == Err(BuildPosts(BlogDirectories(listing), env).error)
    ensures r.Ok? ==> |r.value| == |BlogDirectories(listing)|
    ensures BuildPosts(BlogDirectories(listing), env).Ok? ==>
      r.Ok? && IndexOrder(r.value, BuildPosts(BlogDirectories(listing), env).value)
  {
    var dirs := BlogDirectories(listing);
    match BuildPosts(dirs, env)
    case Err(e) =>
      r := Err(e);
    case Ok(posts) =>
      var a := new Post[|posts|](i requires 0 <= i < |posts| => posts[i]);
      assert a[..] == posts;
      SortByDate(a);
      var sorted := a[..];
      SameDatesSamePosts(sorted, posts);
      ReversedPermutes(sorted);
      ReversedSortedIsNewestFirst(sorted);
      forall d ensures WithDate(Reversed(sorted), d) == Reversed(WithDate(posts, d)) {
        ReversedWithDate(sorted, d);
      }
      r := Ok(Reversed(sorted));
  }

  // ------------------------------------------------------------------ links

  const PostPrefix: string := "post/"

  /** The link of a post's index entry, `format!("post/{}", post.path)`. */
  function PostLink(post: Post): (href: string)
    ensures |href| == |PostPrefix| + |post.path|
    ensures href[..|PostPrefix|] == PostPrefix && href[|PostPrefix|..] == post.path
  {
    PostPrefix + post.path
  }

  /** Two entries link to the same place exactly when their posts have the same path. */
  lemma PostLinkDeterminesPath(p: Post, q: Post)
    ensures PostLink(p) == PostLink(q) <==> p.path == q.path
  {
  }

  /** One entry of the index list: its link and the title it shows. */
  datatype Entry = Entry(href: string, title: string)

  /** The index list: one entry per post, in the order of the posts. */
  function IndexEntries(posts: seq<Post>): (r: seq<Entry>)
    ensures |r| == |posts|
    ensures forall i :: 0 <= i < |r| ==>
      r[i].href == PostLink(posts[i]) && r[i].title == posts[i].title
  {
    seq(|posts|, i requires 0 <= i < |posts| => Entry(PostLink(posts[i]), posts[i].title))
  }
}
