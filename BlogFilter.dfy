/** The tag filter above the blog listing: a row of tag buttons, the tag
    chosen last, and the posts that carry it. */
module BlogFilter {
  import opened Wrappers

  /** The show-everything choice, which is also the initial one. */
  const AllTag: string := "all"

  /** A blog post as the filter sees it: its slug and the `tags` of its
      front matter, which a post may leave out. */
  datatype Post = Post(slug: string, tags: Option<seq<string>>)

  /** `post.data.tags && post.data.tags.includes(tag)`. An absent tag list
      matches nothing; an empty one is present but contains nothing. */
  predicate HasTag(post: Post, tag: string) {
    post.tags.Some? && tag in post.tags.value
  }

  /** `posts.filter(post => HasTag(post, tag))`. */
  function FilterByTag(posts: seq<Post>, tag: string): (r: seq<Post>)
    ensures |r| <= |posts|
    ensures forall p :: p in r ==> p in posts && HasTag(p, tag)
  {
    if posts == [] then []
    else
      var rest := FilterByTag(posts[1..], tag);
      assert forall p :: p in rest ==> p in posts;
      (if HasTag(posts[0], tag) then [posts[0]] else []) + rest
  }

  /** `filteredPosts`: every post for the `'all'` choice, otherwise the posts
      carrying the chosen tag. */
  function Filtered(posts: seq<Post>, activeTag: string): (r: seq<Post>)
    ensures |r| <= |posts|
    ensures forall p :: p in r ==> p in posts
    ensures activeTag != AllTag ==> forall p :: p in r ==> HasTag(p, activeTag)
  {
    if activeTag == AllTag then posts else FilterByTag(posts, activeTag)
  }

  /** `a` is `b` with some elements removed and the rest kept in order. */
  predicate IsSubsequence<T(==)>(a: seq<T>, b: seq<T>)
    decreases |b|
  {
    if a == [] then true
    else if b == [] then false
    else (a[0] == b[0] && IsSubsequence(a[1..], b[1..])) || IsSubsequence(a, b[1..])
  }

  // ---------------------------------------------------------------------------
  // The filter

  /** Each post occurs in the result exactly as often as in the input when it
      carries the tag, and not at all otherwise: the filter is sound and
      complete and drops no duplicate. */
  lemma {:induction false} FilterCounts(posts: seq<Post>, tag: string, p: Post)
    ensures multiset(FilterByTag(posts, tag))[p] == if HasTag(p, tag) then multiset(posts)[p] else 0
  {
    if posts != [] {
      FilterCounts(posts[1..], tag, p);
      assert posts == [posts[0]] + posts[1..];
    }
  }

  /** The result is the input with the posts lacking the tag removed, in the
      original order. */
  lemma {:induction false} FilterIsSubsequence(posts: seq<Post>, tag: string)
    ensures IsSubsequence(FilterByTag(posts, tag), posts)
  {
    if posts != [] {
      var r := FilterByTag(posts, tag);
      FilterIsSubsequence(posts[1..], tag);
      if HasTag(posts[0], tag) {
        assert r[0] == posts[0] && r[1..] == FilterByTag(posts[1..], tag);
      } else {
        assert r == FilterByTag(posts[1..], tag);
        SubsequenceOfTail(r, posts);
      }
    }
  }

  lemma SubsequenceOfTail<T>(a: seq<T>, b: seq<T>)
    requires b != [] && IsSubsequence(a, b[1..])
    ensures IsSubsequence(a, b)
  {
  }

  /** A list whose posts all carry the tag passes the filter unchanged. */
  lemma {:induction false} FilterKeepsTagged(posts: seq<Post>, tag: string)
    requires forall p :: p in posts ==> HasTag(p, tag)
    ensures FilterByTag(posts, tag) == posts
  {
    if posts != [] {
      assert posts[0] in posts;
      assert forall p :: p in posts[1..] ==> p in posts;
      FilterKeepsTagged(posts[1..], tag);
      assert posts == [posts[0]] + posts[1..];
    }
  }

  /** Filtering twice by the same tag changes nothing more. */
  lemma FilterIdempotent(posts: seq<Post>, tag: string)
    ensures FilterByTag(FilterByTag(posts, tag), tag) == FilterByTag(posts, tag)
  {
    FilterKeepsTagged(FilterByTag(posts, tag), tag);
  }

  /** The result keeps a post exactly when the post carries the tag. */
  lemma FilterMembership(posts: seq<Post>, tag: string, p: Post)
    ensures p in FilterByTag(posts, tag) <==> p in posts && HasTag(p, tag)
  {
    FilterCounts(posts, tag, p);
  }

  /** `filteredPosts` for every choice: `'all'` returns the list itself, and
      any other choice returns an ordered selection holding exactly the posts
      that carry it. A post whose tag list is absent is never selected. */
  lemma FilteredPostsSpec(posts: seq<Post>, activeTag: string)
    ensures activeTag == AllTag ==> Filtered(posts, activeTag) == posts
    ensures IsSubsequence(Filtered(posts, activeTag), posts)
    ensures |Filtered(posts, activeTag)| <= |posts|
    ensures activeTag != AllTag ==>
      forall p :: p in Filtered(posts, activeTag) <==> p in posts && HasTag(p, activeTag)
    ensures activeTag != AllTag ==>
      forall p :: p in posts && p.tags.None? ==> p !in Filtered(posts, activeTag)
  {
    if activeTag == AllTag {
      SubsequenceReflexive(posts);
    } else {
      FilterIsSubsequence(posts, activeTag);
      forall p ensures p in Filtered(posts, activeTag) <==> p in posts && HasTag(p, activeTag) {
        FilterMembership(posts, activeTag, p);
      }
    }
  }

  lemma {:induction false} SubsequenceReflexive<T>(a: seq<T>)
    ensures IsSubsequence(a, a)
  {
    if a != [] {
      SubsequenceReflexive(a[1..]);
    }
  }

  /** A post tagged literally `"all"` cannot be singled out: choosing `'all'`
      shows every post, tagged so or not. */
  lemma AllTagShadowsRealTag(tagged: Post, untagged: Post)
    requires HasTag(tagged, AllTag) && !HasTag(untagged, AllTag)
    ensures Filtered([tagged, untagged], AllTag) == [tagged, untagged]
    ensures FilterByTag([tagged, untagged], AllTag) == [tagged]
  {
    assert [tagged, untagged][1..] == [untagged];
  }

  // ---------------------------------------------------------------------------
  // Buttons and the empty state

  /** The buttons in the order they are drawn: All Posts, then one per tag. */
  function Buttons(allTags: seq<string>): seq<string> {
    [AllTag] + allTags
  }

  /** With distinct tags other than `"all"`, a chosen tag that has a button
      lights exactly that button. */
  lemma ExactlyOneButtonActive(allTags: seq<string>, activeTag: string)
    requires forall i, j :: 0 <= i < j < |allTags| ==> allTags[i] != allTags[j]
    requires AllTag !in allTags
    requires activeTag in Buttons(allTags)
    ensures exists k :: 0 <= k < |Buttons(allTags)| && Buttons(allTags)[k] == activeTag
    ensures forall k, l :: (0 <= k < |Buttons(allTags)| && 0 <= l < |Buttons(allTags)| &&
      Buttons(allTags)[k] == activeTag && Buttons(allTags)[l] == activeTag) ==> k == l
  {
  }

  /** The component's state: the posts and tags it was given and the tag
      chosen last. */
  class TagFilter {
    const posts: seq<Post>
    const allTags: seq<string>
    var activeTag: string

    /** The filter as created, with every post shown. */
    constructor (posts: seq<Post>, allTags: seq<string>)
      ensures this.posts == posts && this.allTags == allTags
      ensures activeTag == AllTag
    {
      this.posts := posts;
      this.allTags := allTags;
      activeTag := AllTag;
    }

    /** `handleTagClick`: the clicked tag becomes the chosen one. */
    method HandleTagClick(tag: string)
      modifies this`activeTag
      ensures activeTag == tag
    {
      activeTag := tag;
    }

    /** `filteredPosts` for the current choice. */
    function FilteredPosts(): (r: seq<Post>)
      reads this
      ensures |r| <= |posts|
      ensures forall p :: p in r ==> p in posts
      ensures activeTag == AllTag ==> r == posts
      ensures activeTag != AllTag ==> forall p :: p in r ==> HasTag(p, activeTag)
    {
      Filtered(posts, activeTag)
    }

    /** `getButtonClasses`: whether the button for `tag` is drawn as active. */
    predicate IsActive(tag: string)
      reads this
    {
      activeTag == tag
    }

    /** Whether the "No posts found" message replaces the grid. */
    predicate ShowsEmptyState()
      reads this
    {
      |FilteredPosts()| == 0
    }
  }

  /** The empty state appears exactly when no post is selected: never under
      `'all'` unless there are no posts, and under a tag exactly when no post
      carries it. */
  lemma EmptyStateExactly(f: TagFilter)
    ensures f.ShowsEmptyState() <==> f.FilteredPosts() == []
    ensures f.activeTag == AllTag ==> (f.ShowsEmptyState() <==> f.posts == [])
    ensures f.activeTag != AllTag ==>
      (f.ShowsEmptyState() <==> forall p :: p in f.posts ==> !HasTag(p, f.activeTag))
  {
    if f.activeTag != AllTag {
      FilteredPostsSpec(f.posts, f.activeTag);
      if !f.ShowsEmptyState() {
        assert f.FilteredPosts()[0] in f.FilteredPosts();
      }
    }
  }

  /** A click on a tag button lights that button alone and shows the posts
      carrying the tag; a click on All Posts brings every post back. */
  method ClickThenShow(f: TagFilter, tag: string) returns (shown: seq<Post>)
    modifies f
    ensures f.activeTag == tag
    ensures forall t :: f.IsActive(t) <==> t == tag
    ensures shown == f.FilteredPosts()
    ensures tag == AllTag ==> shown == f.posts
    ensures tag != AllTag ==> forall p :: p in shown <==> p in f.posts && HasTag(p, tag)
  {
    f.HandleTagClick(tag);
    shown := f.FilteredPosts();
    FilteredPostsSpec(f.posts, tag);
  }
}
