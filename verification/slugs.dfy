/**
 * The slug rule that names a new post's file. CreatePost's own code is not
 * part of this model; the rule is the one internal/application/management_test.go
 * pins down: lower-case, each space to '-', every character outside
 * [a-z0-9-] dropped, hyphens never collapsed.
 */
module Slugs {
  import opened Text

  /** Lower-casing of the ASCII letters; every other character is left alone. */
  function ToLowerAscii(c: char): char
  {
    if 'A' <= c <= 'Z' then (c as int + 32) as char else c
  }

  /** The characters a slug may hold: lower-case ASCII letters, digits and '-'. */
  predicate IsSlugChar(c: char)
  {
    ('a' <= c <= 'z') || ('0' <= c <= '9') || c == '-'
  }

  /** What one title character contributes: a space gives '-', a kept character its lower case, anything else nothing. */
  function SlugChar(c: char): (r: string)
    ensures |r| <= 1
    ensures forall i :: 0 <= i < |r| ==> IsSlugChar(r[i])
  {
    if c == ' ' then "-"
    else
      var l := ToLowerAscii(c);
      if IsSlugChar(l) then [l] else []
  }

  /** The slug of a title: each character handled on its own, left to right. */
  function Slug(title: string): string
  {
    if title == [] then [] else Slug(title[..|title| - 1]) + SlugChar(title[|title| - 1])
  }

  /** A slug holds only [a-z0-9-], is no longer than its title, and so never holds a path separator. */
  lemma {:induction false} SlugAlphabet(title: string)
    ensures forall i :: 0 <= i < |Slug(title)| ==> IsSlugChar(Slug(title)[i])
    ensures |Slug(title)| <= |title|
    ensures '/' !in Slug(title)
  {
    if title != [] {
      SlugAlphabet(title[..|title| - 1]);
    }
  }

  /** The slug of a concatenation is the concatenation of the slugs. */
  lemma {:induction false} SlugAppend(a: string, b: string)
    ensures Slug(a + b) == Slug(a) + Slug(b)
  {
    if b != [] {
      var init := b[..|b| - 1];
      SlugAppend(a, init);
      assert (a + b)[..|a + b| - 1] == a + init;
    } else {
      assert a + b == a;
    }
  }

  /** A slug is its own slug. */
  lemma {:induction false} SlugIdempotent(title: string)
    ensures Slug(Slug(title)) == Slug(title)
  {
    if title != [] {
      var init := title[..|title| - 1];
      SlugIdempotent(init);
      SlugAppend(Slug(init), SlugChar(title[|title| - 1]));
      SlugCharIsSlug(title[|title| - 1]);
    }
  }

  lemma SlugCharIsSlug(c: char)
    ensures Slug(SlugChar(c)) == SlugChar(c)
  {
    var r := SlugChar(c);
    if r != [] {
      assert r[..0] == [];
      assert ToLowerAscii(r[0]) == r[0];
    }
  }

  /**
   * Hyphens are never collapsed: the slug holds one '-' for every space and
   * every hyphen of the title.
   */
  lemma {:induction false} HyphenCount(title: string)
    ensures multiset(Slug(title))['-'] == multiset(title)[' '] + multiset(title)['-']
  {
    if title != [] {
      var init, c := title[..|title| - 1], title[|title| - 1];
      HyphenCount(init);
      assert title == init + [c];
      assert multiset(title) == multiset(init) + multiset([c]);
      assert multiset(Slug(title)) == multiset(Slug(init)) + multiset(SlugChar(c));
      assert multiset(SlugChar(c))['-'] == multiset([c])[' '] + multiset([c])['-'] by {
        if c == ' ' || c == '-' {
          assert SlugChar(c) == "-";
        } else {
          assert '-' !in SlugChar(c);
        }
      }
    }
  }

  /**
   * Words joined by spaces (or by hyphens) give their slugs joined by
   * hyphens, one hyphen per separator.
   */
  lemma {:induction false} SlugOfJoin(sep: char, words: seq<string>, slugs: seq<string>)
    requires sep == ' ' || sep == '-'
    requires |words| == |slugs|
    requires forall i :: 0 <= i < |words| ==> Slug(words[i]) == slugs[i]
    ensures Slug(Join([sep], words)) == Join("-", slugs)
  {
    if |words| > 1 {
      SlugOfJoin(sep, words[1..], slugs[1..]);
      SlugAppend(words[0] + [sep], Join([sep], words[1..]));
      SlugAppend(words[0], [sep]);
      assert Slug([sep]) == "-" by {
        assert [sep][..0] == [];
      }
    }
  }

  /** A title whose every character contributes exactly one slug character. */
  lemma {:induction false} Charwise(title: string, slug: string)
    requires |title| == |slug|
    requires forall i :: 0 <= i < |title| ==> SlugChar(title[i]) == [slug[i]]
    ensures Slug(title) == slug
  {
    if title != [] {
      var n := |title| - 1;
      Charwise(title[..n], slug[..n]);
      assert slug == slug[..n] + [slug[n]];
    }
  }

  /** Punctuation contributes nothing. */
  lemma {:induction false} Dropped(w: string)
    requires forall i :: 0 <= i < |w| ==> w[i] in "!@#$%"
    ensures Slug(w) == ""
  {
    if w != [] {
      Dropped(w[..|w| - 1]);
    }
  }
}

/** The slug vectors of internal/application/management_test.go. */
module SlugVectors {
  import opened Slugs

  lemma SlugSimpleTitle()
    ensures Slug("Simple Title") == "simple-title"
  {
    Charwise("Simple Title", "simple-title");
  }

  lemma SlugTitleWithNumbers()
    ensures Slug("Title With Numbers 123") == "title-with-numbers-123"
  {
    Charwise("Title With Numbers 123", "title-with-numbers-123");
  }

  lemma SlugUppercaseTitle()
    ensures Slug("UPPERCASE TITLE") == "uppercase-title"
  {
    Charwise("UPPERCASE TITLE", "uppercase-title");
  }

  lemma SlugTitleWithHyphens()
    ensures Slug("Title-With-Hyphens") == "title-with-hyphens"
  {
    Charwise("Title-With-Hyphens", "title-with-hyphens");
  }

  /** The empty title has the empty slug. */
  lemma SlugEmptyTitle()
    ensures Slug("") == ""
  {
  }

  /** Characters outside the slug alphabet vanish, and the hyphens either side of them stay: a double hyphen. */
  lemma SlugTitleWithSpecialCharacters()
    ensures Slug("Title With Special @#$% Characters") == "title-with-special--characters"
  {
    HeadOfSpecial();
    PunctuationOfSpecial();
    TailOfSpecial();
    PiecesOfSpecial();
    Concat3("Title With Special @#$% Characters", "Title With Special ", "@#$%", " Characters",
      "title-with-special-", "", "-characters");
  }

  lemma PiecesOfSpecial()
    ensures "Title With Special @#$% Characters" == "Title With Special " + "@#$%" + " Characters"
    ensures "title-with-special--characters" == "title-with-special-" + "" + "-characters"
  {
  }

  lemma HeadOfSpecial()
    ensures Slug("Title With Special ") == "title-with-special-"
  {
    Charwise("Title With Special ", "title-with-special-");
  }

  lemma TailOfSpecial()
    ensures Slug(" Characters") == "-characters"
  {
    Charwise(" Characters", "-characters");
  }

  lemma PunctuationOfSpecial()
    ensures Slug("@#$%") == ""
  {
    Dropped("@#$%");
  }

  lemma Concat3(t: string, a: string, b: string, c: string, sa: string, sb: string, sc: string)
    requires Slug(a) == sa && Slug(b) == sb && Slug(c) == sc
    requires t == a + b + c
    ensures Slug(t) == sa + sb + sc
  {
    SlugAppend(a, b);
    SlugAppend(a + b, c);
  }
}
