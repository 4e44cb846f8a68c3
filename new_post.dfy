/**
 * The new-post form of the admin area (app/admin/new/page.tsx): the slug
 * that follows the title until it is edited by hand, the check of the
 * required fields and of a slug already in use before submitting, the
 * parsing of the comma-separated tag list, and the row that is inserted.
 */
module NewPost {
  import opened Chars
  import opened Optional
  import opened Strings
  import opened Slugs
  import Replace

  // ---------------------------------------------------------------------
  // Tags

  /** Trims every field, keeping their order. */
  function TrimEach(fields: seq<string>): (r: seq<string>)
    ensures |r| == |fields|
  {
    if fields == [] then [] else [Trim(fields[0])] + TrimEach(fields[1..])
  }

  /** Each trimmed field is the trimmed text of the field at the same place. */
  lemma {:induction false} TrimEachAt(fields: seq<string>, i: int)
    requires 0 <= i < |fields|
    ensures TrimEach(fields)[i] == Trim(fields[i])
    decreases i
  {
    if i > 0 {
      TrimEachAt(fields[1..], i - 1);
    }
  }

  /** Keeps the non-empty fields, in their order. */
  function KeepNonEmpty(fields: seq<string>): (r: seq<string>)
    ensures forall t | t in r :: t != [] && t in fields
    ensures forall t | t in fields && t != [] :: t in r
    ensures |r| <= |fields|
  {
    if fields == [] then []
    else if fields[0] == [] then KeepNonEmpty(fields[1..])
    else [fields[0]] + KeepNonEmpty(fields[1..])
  }

  /** The tags typed as one comma-separated text: split at each comma, trim each piece, drop the empty ones. */
  function ParseTags(text: string): seq<string> {
    KeepNonEmpty(TrimEach(Split(text, ',')))
  }

  /** Every parsed tag is non-empty, already trimmed, and holds no comma. */
  lemma ParseTagsWellFormed(text: string)
    ensures forall t | t in ParseTags(text) :: t != [] && Trim(t) == t && ',' !in t
  {
    var pieces := Split(text, ',');
    var trimmed := TrimEach(pieces);
    forall t | t in ParseTags(text) ensures t != [] && Trim(t) == t && ',' !in t {
      var i :| 0 <= i < |trimmed| && trimmed[i] == t;
      TrimEachAt(pieces, i);
      assert pieces[i] in pieces;
      TrimChars(pieces[i]);
    }
  }

  /** Dropping empty fields distributes over concatenation. */
  lemma {:induction false} KeepNonEmptyAppend(a: seq<string>, b: seq<string>)
    ensures KeepNonEmpty(a + b) == KeepNonEmpty(a) + KeepNonEmpty(b)
    decreases |a|
  {
    if a != [] {
      assert (a + b)[1..] == a[1..] + b;
      KeepNonEmptyAppend(a[1..], b);
    } else {
      assert a + b == b;
    }
  }

  /** A text without a comma is one tag, its trimmed self, unless that is empty. */
  lemma ParseTagsPiece(a: string)
    requires ',' !in a
    ensures ParseTags(a) == if Trim(a) == [] then [] else [Trim(a)]
  {
    SplitPiece(a, ',');
    assert TrimEach([a]) == [Trim(a)] + TrimEach([]);
  }

  /** Splitting at the first comma separates the first piece from the pieces of the rest. */
  lemma SplitAtFirstComma(a: string, b: string)
    requires ',' !in a
    ensures Split(a + [','] + b, ',') == [a] + Split(b, ',')
  {
    var rest := Split(b, ',');
    var fields := [a] + rest;
    assert fields[0] == a && fields[1..] == rest;
    assert Join(fields, ',') == a + [','] + b;
    forall f | f in fields ensures ',' !in f {
      if f != a { assert f in rest; }
    }
    SplitJoin(fields, ',');
  }

  /** Trimming each field distributes over concatenation. */
  lemma {:induction false} TrimEachAppend(a: seq<string>, b: seq<string>)
    ensures TrimEach(a + b) == TrimEach(a) + TrimEach(b)
    decreases |a|
  {
    if a != [] {
      assert (a + b)[1..] == a[1..] + b;
      TrimEachAppend(a[1..], b);
    } else {
      assert a + b == b;
    }
  }

  /**
   * The tags of a text are those of its first comma-separated piece
   * followed by those of the rest: the order of the pieces is kept.
   */
  lemma ParseTagsAppend(a: string, b: string)
    requires ',' !in a
    ensures ParseTags(a + [','] + b) == ParseTags(a) + ParseTags(b)
  {
    var rest := Split(b, ',');
    SplitAtFirstComma(a, b);
    SplitPiece(a, ',');
    TrimEachAppend([a], rest);
    KeepNonEmptyAppend(TrimEach([a]), TrimEach(rest));
  }

  /** A tag text made only of blanks and commas, the empty one included, gives no tags. */
  lemma {:induction false} ParseTagsBlank(text: string)
    requires forall k | 0 <= k < |text| :: IsSpace(text[k]) || text[k] == ','
    ensures ParseTags(text) == []
    decreases |text|
  {
    if ',' !in text {
      forall k | 0 <= k < |text| ensures IsSpace(text[k]) {
        assert text[k] != ',' by { assert text[k] in text; }
      }
      BlankPieceNoTags(text);
    } else {
      var found := Replace.IndexOfFrom(text, ',', 0);
      if found.None? {
        assert false;
      }
      var i := found.value;
      var a, b := text[..i], text[i + 1..];
      assert text == a + [','] + b;
      forall k | 0 <= k < |a| ensures IsSpace(a[k]) {
        assert a[k] == text[k];
      }
      assert ',' !in a by {
        forall k | 0 <= k < |a| ensures a[k] != ',' {
          assert a[k] == text[k];
        }
      }
      forall k | 0 <= k < |b| ensures IsSpace(b[k]) || b[k] == ',' {
        assert b[k] == text[i + 1 + k];
      }
      BlankPieceNoTags(a);
      ParseTagsBlank(b);
      ParseTagsAppend(a, b);
    }
  }

  /** A text of blanks without a comma gives no tag. */
  lemma BlankPieceNoTags(a: string)
    requires forall k | 0 <= k < |a| :: IsSpace(a[k])
    ensures ParseTags(a) == []
  {
    assert ',' !in a by {
      forall k | 0 <= k < |a| ensures a[k] != ',' {
        assert IsSpace(a[k]);
      }
    }
    ParseTagsPiece(a);
  }

  /** Two plain words separated by a comma are two tags, in order. */
  lemma ParseTagsTwo()
    ensures ParseTags("a,b") == ["a", "b"]
  {
    var a, b := "a", "b";
    assert Trim(a) == a && Trim(b) == b;
    ParseTagsPiece(a);
    ParseTagsPiece(b);
    ParseTagsAppend(a, b);
    assert a + [','] + b == "a,b";
  }

  // ---------------------------------------------------------------------
  // The inserted row

  /** A row of the `articles` table as the form inserts it. */
  datatype ArticleRow = ArticleRow(
    title: string,
    slug: string,
    excerpt: Option<string>,
    contentMd: string,
    coverUrl: Option<string>,
    tags: seq<string>,
    published: bool)

  /** An empty text is stored as null, any other text as it is. */
  function EmptyToNull(s: string): (r: Option<string>)
    ensures r.None? <==> s == []
    ensures r.Some? ==> r.value == s
  {
    if s == [] then None else Some(s)
  }

  /**
   * The row built from the form fields. The slug is Unicode-normalised
   * (NFC) and trimmed; NFC is taken to leave the slug unchanged here (see
   * `SlugNeedsNoNormalising`).
   */
  function MakeRow(title: string, slug: string, excerpt: string, content: string,
                   coverUrl: string, tagsText: string, published: bool): (r: ArticleRow)
    ensures r.title == title && r.contentMd == content && r.published == published
    ensures r.slug == Trim(slug)
    ensures r.excerpt.None? <==> excerpt == []
    ensures r.coverUrl.None? <==> coverUrl == []
    ensures r.excerpt.Some? ==> r.excerpt.value == excerpt
    ensures r.coverUrl.Some? ==> r.coverUrl.value == coverUrl
    ensures r.tags == ParseTags(tagsText)
  {
    ArticleRow(title, Trim(slug), EmptyToNull(excerpt), content, EmptyToNull(coverUrl),
      ParseTags(tagsText), published)
  }

  /**
   * A slug the form holds is a fixed point of slug generation, so it has
   * no white space and trimming leaves it unchanged: the stored slug is the
   * slug of the page the form then opens.
   */
  lemma SlugNeedsNoNormalising(slug: string)
    requires IsSlugShaped(slug)
    ensures Trim(slug) == slug
  {
    SlugShapedExcludes(slug);
    if slug != [] {
      assert slug[0] in slug && slug[|slug| - 1] in slug;
    }
  }

  // ---------------------------------------------------------------------
  // Submit gate

  /** The message for a missing title, slug or body. */
  const RequiredMsg: string := "タイトル・スラッグ・本文は必須です。"

  /** The message for a slug another article already uses. */
  const SlugTakenMsg: string := "このスラッグは既に使われています。別の文字列にしてください。"

  /**
   * Why a submit is refused, if it is: first a missing title, slug or
   * body; then a slug the last check found in use. An unknown answer
   * (None: not checked yet, or the check failed) does not block.
   */
  function SubmitBlocker(title: string, slug: string, content: string, slugExists: Option<bool>): (r: Option<string>)
    ensures r == Some(RequiredMsg) <==> title == [] || slug == [] || content == []
    ensures r == Some(SlugTakenMsg) <==> title != [] && slug != [] && content != [] && slugExists == Some(true)
    ensures r.None? <==> title != [] && slug != [] && content != [] && slugExists != Some(true)
  {
    if title == [] || slug == [] || content == [] then Some(RequiredMsg)
    else if slugExists == Some(true) then Some(SlugTakenMsg)
    else None
  }

  // ---------------------------------------------------------------------
  // The form

  /** The state of the new-post form. */
  class NewPostForm {
    var title: string
    var slug: string
    var excerpt: string
    var content: string
    var coverUrl: string
    var tagsText: string
    var published: bool
    /** Whether the slug was edited by hand (manual mode) rather than derived from the title. */
    var slugTouched: bool
    /** Whether the last availability check found the slug in use; None when unknown. */
    var slugExists: Option<bool>
    var submitting: bool
    var errorMsg: Option<string>

    /**
     * In automatic mode the slug is the title's slug, and in either mode
     * the slug looks like a slug, so generating a slug from it changes
     * nothing (`SlugifyFixedPoints`).
     */
    predicate Valid()
      reads this
    {
      && (!slugTouched ==> slug == Slugify(title))
      && IsSlugShaped(slug)
    }

    /** The empty form, in automatic mode, published by default. */
    constructor()
      ensures Valid()
      ensures title == [] && slug == [] && excerpt == [] && content == [] && coverUrl == [] && tagsText == []
      ensures published && !slugTouched && slugExists.None? && !submitting && errorMsg.None?
    {
      title := [];
      slug := [];
      excerpt := [];
      content := [];
      coverUrl := [];
      tagsText := [];
      published := true;
      slugTouched := false;
      slugExists := None;
      submitting := false;
      errorMsg := None;
      new;
      SlugifyBlank([]);
      assert IsSlugShaped([]);
    }

    /** What happens when the slug changes: an empty slug makes its availability unknown. */
    method SlugChanged(previous: string)
      modifies this
      ensures slugExists == if slug != previous && slug == [] then None else old(slugExists)
      ensures title == old(title) && slug == old(slug) && slugTouched == old(slugTouched)
      ensures excerpt == old(excerpt) && content == old(content) && coverUrl == old(coverUrl)
      ensures tagsText == old(tagsText) && published == old(published)
      ensures submitting == old(submitting) && errorMsg == old(errorMsg)
    {
      if slug != previous && slug == [] {
        slugExists := None;
      }
    }

    /** Typing a title: in automatic mode the slug follows it. */
    method SetTitle(v: string)
      requires Valid()
      modifies this
      ensures Valid()
      ensures title == v && slugTouched == old(slugTouched)
      ensures slug == if slugTouched then old(slug) else Slugify(v)
      ensures slugExists == if slug != old(slug) && slug == [] then None else old(slugExists)
      ensures excerpt == old(excerpt) && content == old(content) && coverUrl == old(coverUrl)
      ensures tagsText == old(tagsText) && published == old(published)
      ensures submitting == old(submitting) && errorMsg == old(errorMsg)
    {
      var previous := slug;
      title := v;
      if !slugTouched {
        slug := Slugify(title);
        SlugifyShape(title);
      }
      SlugChanged(previous);
    }

    /** Typing a slug by hand: manual mode, and the typed text goes through slug generation. */
    method HandleSlugChange(v: string)
      requires Valid()
      modifies this
      ensures Valid()
      ensures slugTouched && slug == Slugify(v) && title == old(title)
      ensures slugExists == if slug != old(slug) && slug == [] then None else old(slugExists)
      ensures excerpt == old(excerpt) && content == old(content) && coverUrl == old(coverUrl)
      ensures tagsText == old(tagsText) && published == old(published)
      ensures submitting == old(submitting) && errorMsg == old(errorMsg)
    {
      var previous := slug;
      if !slugTouched {
        slugTouched := true;
      }
      slug := Slugify(v);
      SlugifyShape(v);
      SlugChanged(previous);
    }

    /** The button that goes back to automatic mode and derives the slug from the title again. */
    method ResetToAuto()
      requires Valid()
      modifies this
      ensures Valid()
      ensures !slugTouched && slug == Slugify(title) && title == old(title)
      ensures slugExists == if slug != old(slug) && slug == [] then None else old(slugExists)
      ensures excerpt == old(excerpt) && content == old(content) && coverUrl == old(coverUrl)
      ensures tagsText == old(tagsText) && published == old(published)
      ensures submitting == old(submitting) && errorMsg == old(errorMsg)
    {
      var previous := slug;
      slugTouched := false;
      slug := Slugify(title);
      SlugifyShape(title);
      SlugChanged(previous);
    }

    /**
     * The availability check settles: a failed query makes the answer
     * unknown, otherwise the slug is in use exactly when a row was found.
     */
    method SlugCheckSettled(failed: bool, found: bool)
      requires Valid()
      modifies this
      ensures Valid()
      ensures slugExists == if failed then None else Some(found)
      ensures title == old(title) && slug == old(slug) && slugTouched == old(slugTouched)
      ensures excerpt == old(excerpt) && content == old(content) && coverUrl == old(coverUrl)
      ensures tagsText == old(tagsText) && published == old(published)
      ensures submitting == old(submitting) && errorMsg == old(errorMsg)
    {
      if failed {
        slugExists := None;
        return;
      }
      slugExists := Some(found);
    }

    /** Editing one of the fields that play no part in the slug. */
    method SetFields(excerpt': string, content': string, coverUrl': string, tagsText': string, published': bool)
      requires Valid()
      modifies this
      ensures Valid()
      ensures excerpt == excerpt' && content == content' && coverUrl == coverUrl'
      ensures tagsText == tagsText' && published == published'
      ensures title == old(title) && slug == old(slug) && slugTouched == old(slugTouched)
      ensures slugExists == old(slugExists) && submitting == old(submitting) && errorMsg == old(errorMsg)
    {
      excerpt := excerpt';
      content := content';
      coverUrl := coverUrl';
      tagsText := tagsText';
      published := published';
    }

    /**
     * Submitting the form. A refused submit sets the error message and
     * inserts nothing. Otherwise the row is inserted; `insertError` is the
     * database's answer (None on success), and on success the page of the
     * new post is opened. Either way the form is no longer submitting.
     */
    method Submit(insertError: Option<string>) returns (row: Option<ArticleRow>, redirect: Option<string>)
      requires Valid()
      modifies this
      ensures Valid()
      ensures SubmitBlocker(title, slug, content, slugExists).Some? ==>
        row.None? && redirect.None? && errorMsg == SubmitBlocker(title, slug, content, slugExists)
      ensures SubmitBlocker(title, slug, content, slugExists).None? ==>
        && row == Some(MakeRow(title, slug, excerpt, content, coverUrl, tagsText, published))
        && row.value.slug == slug
        && errorMsg == insertError
        && (redirect.Some? <==> insertError.None?)
        && (redirect.Some? ==> redirect.value == "/posts/" + slug)
      ensures SubmitBlocker(title, slug, content, slugExists).Some? ==> submitting == old(submitting)
      ensures SubmitBlocker(title, slug, content, slugExists).None? ==> !submitting
      ensures title == old(title) && slug == old(slug) && slugTouched == old(slugTouched)
      ensures excerpt == old(excerpt) && content == old(content) && coverUrl == old(coverUrl)
      ensures tagsText == old(tagsText) && published == old(published) && slugExists == old(slugExists)
    {
      errorMsg := None;
      row := None;
      redirect := None;
      var blocker := SubmitBlocker(title, slug, content, slugExists);
      if blocker.Some? {
        errorMsg := blocker;
        return;
      }
      submitting := true;
      var tags := ParseTags(tagsText);
      var normalizedSlug := Trim(slug);
      SlugNeedsNoNormalising(slug);
      row := Some(ArticleRow(title, normalizedSlug, EmptyToNull(excerpt), content,
        EmptyToNull(coverUrl), tags, published));
      if insertError.Some? {
        errorMsg := insertError;
      } else {
        redirect := Some("/posts/" + slug);
      }
      submitting := false;
    }
  }
}
