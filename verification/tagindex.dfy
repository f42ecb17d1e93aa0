/**
 * The tag index of internal/cms: a map from tag to the posts carrying it,
 * filled in place as posts are listed, and the `join` helper the editor
 * template uses to show a post's tags.
 */
module TagIndex {
  import opened Text
  import opened Models

  type Index = map<string, seq<Post>>

  /** The posts filed under `tag`; none when the tag is not a key. */
  function Lookup(index: Index, tag: string): seq<Post>
  {
    if tag in index then index[tag] else []
  }

  /** `n` copies of `p`. */
  function Repeat(p: Post, n: nat): (r: seq<Post>)
    ensures |r| == n
    ensures forall i :: 0 <= i < n ==> r[i] == p
  {
    if n == 0 then [] else Repeat(p, n - 1) + [p]
  }

  /** The index after filing `p` under each of `tags` in turn, with an empty list made first for a new tag. */
  function AddPost(index: Index, tags: seq<string>, p: Post): Index
  {
    if tags == [] then index
    else
      var m := AddPost(index, tags[..|tags| - 1], p);
      var t := tags[|tags| - 1];
      m[t := Lookup(m, t) + [p]]
  }

  /** Filing a post adds exactly its tags to the keys. */
  lemma {:induction false} AddPostKeys(index: Index, tags: seq<string>, p: Post, tag: string)
    ensures tag in AddPost(index, tags, p) <==> tag in index || tag in tags
  {
    if tags != [] {
      AddPostKeys(index, tags[..|tags| - 1], p, tag);
      assert tags == tags[..|tags| - 1] + [tags[|tags| - 1]];
    }
  }

  /**
   * Filing a post appends it to the end of the list of every tag it carries,
   * once per time the tag occurs; a tag it does not carry keeps its list.
   */
  lemma {:induction false} AddPostSpec(index: Index, tags: seq<string>, p: Post, tag: string)
    ensures Lookup(AddPost(index, tags, p), tag) == Lookup(index, tag) + Repeat(p, multiset(tags)[tag])
  {
    if tags != [] {
      var init, t := tags[..|tags| - 1], tags[|tags| - 1];
      AddPostSpec(index, init, p, tag);
      var m := AddPost(index, init, p);
      var before := Lookup(index, tag);
      assert tags == init + [t];
      var n := multiset(init)[tag];
      if tag == t {
        assert multiset(tags)[tag] == n + 1;
        calc {
          Lookup(AddPost(index, tags, p), tag);
          Lookup(m, tag) + [p];
          before + Repeat(p, n) + [p];
          before + Repeat(p, n + 1);
        }
      } else {
        assert multiset(tags)[tag] == n;
      }
    }
  }

  /** The sequence of posts filed under `tag` by indexing `posts` in order. */
  function Tagged(posts: seq<Post>, tag: string): seq<Post>
  {
    if posts == [] then []
    else
      var p := posts[|posts| - 1];
      Tagged(posts[..|posts| - 1], tag) + Repeat(p, multiset(p.metadata.tags)[tag])
  }

  /** The index after filing each of `posts` in order. */
  function IndexAll(index: Index, posts: seq<Post>): Index
  {
    if posts == [] then index
    else
      var p := posts[|posts| - 1];
      AddPost(IndexAll(index, posts[..|posts| - 1]), p.metadata.tags, p)
  }

  /** Indexing a list of posts appends, to each tag's list, the posts carrying it in list order. */
  lemma IndexAllSpec(index: Index, posts: seq<Post>, tag: string)
    ensures tag in IndexAll(index, posts) <==> tag in index || Tagged(posts, tag) != []
    ensures Lookup(IndexAll(index, posts), tag) == Lookup(index, tag) + Tagged(posts, tag)
  {
    IndexAllKeys(index, posts, tag);
    IndexAllLookup(index, posts, tag);
  }

  lemma {:induction false} IndexAllKeys(index: Index, posts: seq<Post>, tag: string)
    ensures tag in IndexAll(index, posts) <==> tag in index || Tagged(posts, tag) != []
  {
    if posts != [] {
      var init, p := posts[..|posts| - 1], posts[|posts| - 1];
      IndexAllKeys(index, init, tag);
      AddPostKeys(IndexAll(index, init), p.metadata.tags, p, tag);
      assert tag in p.metadata.tags <==> multiset(p.metadata.tags)[tag] > 0;
    }
  }

  lemma {:induction false} IndexAllLookup(index: Index, posts: seq<Post>, tag: string)
    ensures Lookup(IndexAll(index, posts), tag) == Lookup(index, tag) + Tagged(posts, tag)
  {
    if posts != [] {
      var init, p := posts[..|posts| - 1], posts[|posts| - 1];
      IndexAllLookup(index, init, tag);
      AddPostSpec(IndexAll(index, init), p.metadata.tags, p, tag);
    }
  }

  /**
   * Nothing is de-duplicated: indexing the same posts a second time, as every
   * home-page request does, files each of them again.
   */
  lemma ReindexDuplicates(index: Index, posts: seq<Post>, tag: string)
    ensures Lookup(IndexAll(IndexAll(index, posts), posts), tag) == Lookup(index, tag) + Tagged(posts, tag) + Tagged(posts, tag)
  {
    IndexAllSpec(index, posts, tag);
    IndexAllSpec(IndexAll(index, posts), posts, tag);
  }

  /** A tag repeated within one post files that post once per occurrence. */
  lemma RepeatedTag(p: Post, tag: string)
    requires p.metadata.tags == [tag, tag]
    ensures Lookup(AddPost(map[], p.metadata.tags, p), tag) == [p, p]
  {
    AddPostSpec(map[], p.metadata.tags, p, tag);
    assert multiset(p.metadata.tags)[tag] == 2;
  }

  /** The part of the CMS the tag index lives in. */
  class Cms {
    var tags: Index

    /** New: an empty index. */
    constructor ()
      ensures tags == map[]
    {
      tags := map[];
    }

    /** updateTags: file `p` under each of its tags. */
    method UpdateTags(p: Post)
      modifies this
      ensures tags == AddPost(old(tags), p.metadata.tags, p)
    {
      var ts := p.metadata.tags;
      var i := 0;
      while i < |ts|
        invariant 0 <= i <= |ts|
        invariant tags == AddPost(old(tags), ts[..i], p)
      {
        var t := ts[i];
        assert ts[..i + 1][..i] == ts[..i];
        if t in tags {
          tags := tags[t := tags[t] + [p]];
        } else {
          tags := tags[t := []];
          tags := tags[t := tags[t] + [p]];
        }
        i := i + 1;
      }
      assert ts[..|ts|] == ts;
    }

    /** The home page's loop: file every listed post. */
    method IndexPosts(posts: seq<Post>)
      modifies this
      ensures tags == IndexAll(old(tags), posts)
    {
      var i := 0;
      while i < |posts|
        invariant 0 <= i <= |posts|
        invariant tags == IndexAll(old(tags), posts[..i])
      {
        assert posts[..i + 1][..i] == posts[..i];
        UpdateTags(posts[i]);
        i := i + 1;
      }
      assert posts[..|posts|] == posts;
    }

    /** getTags: every tag of the index exactly once, in no particular order. */
    method GetTags() returns (r: seq<string>)
      ensures forall k :: k in r <==> k in tags
      ensures |r| == |tags|
      ensures forall i, j :: 0 <= i < j < |r| ==> r[i] != r[j]
    {
      r := [];
      var rest := tags.Keys;
      while rest != {}
        invariant forall k :: k in tags <==> k in r || k in rest
        invariant forall k :: k in rest ==> k !in r
        invariant forall i, j :: 0 <= i < j < |r| ==> r[i] != r[j]
        invariant |r| + |rest| == |tags|
        decreases |rest|
      {
        var k :| k in rest;
        r := r + [k];
        rest := rest - {k};
      }
    }
  }

  /**
   * join: the elements with `sep` between neighbours only, so the text is
   * the elements' lengths plus one separator fewer than there are elements.
   */
  function JoinTags(sep: string, s: seq<string>): (r: string)
    ensures s == [] ==> r == []
    ensures s != [] ==> |r| == TotalLength(s) + |sep| * (|s| - 1)
    ensures s != [] ==> |s[0]| <= |r| && r[..|s[0]|] == s[0]
    ensures s != [] ==> |s[|s| - 1]| <= |r| && r[|r| - |s[|s| - 1]|..] == s[|s| - 1]
  {
    if s == [] then []
    else
      JoinShape(sep, s);
      Join(sep, s)
  }
}
