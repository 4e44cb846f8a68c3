/**
 * The text of the post cards on the home page (components/Hero.tsx): the
 * excerpt shortened to 50 characters, the cover image with its fallback,
 * and the image's alternative text.
 */
module Hero {
  import opened Optional
  import opened Strings
  import opened Chars

  /** A post as the cards receive it. */
  datatype ArticleCard = ArticleCard(
    id: int,
    title: Option<string>,
    slug: string,
    excerpt: Option<string>,
    coverUrl: Option<string>)

  /** What one card shows: the image source, its alternative text and the excerpt line. */
  datatype CardView = CardView(src: string, alt: string, text: string)

  /** How many characters of the excerpt a card shows. */
  const ExcerptLength: nat := 50

  /**
   * The image shown when a post has no cover. It is spelled as four
   * literals (scheme, host, folder, file) because the proofs about its
   * first and last characters go through cheaply on short literals only.
   */
  const NoImageUrl: string :=
    "https://" + "tnvedtpqxtghrjvzilrb.supabase.co" + "/storage/v1/object/public/post-images/public/" + "noimage.jpg"

  /**
   * The excerpt line: nothing for a missing or empty excerpt; otherwise its
   * first 50 characters, followed by `...` when it was longer.
   */
  function ExcerptText(excerpt: Option<string>): (r: string)
    ensures excerpt.None? || excerpt.value == [] ==> r == []
    ensures excerpt.Some? && |excerpt.value| <= ExcerptLength ==> r == excerpt.value
    ensures excerpt.Some? && |excerpt.value| > ExcerptLength ==>
      |r| == ExcerptLength + 3 && r[..ExcerptLength] == excerpt.value[..ExcerptLength] && r[ExcerptLength..] == "..."
    ensures excerpt.Some? ==> SliceTo(excerpt.value, ExcerptLength) <= r
    ensures |r| <= ExcerptLength + 3
  {
    match excerpt
    case None => []
    case Some(e) =>
      if e == [] then []
      else SliceTo(e, ExcerptLength) + (if |e| > ExcerptLength then "..." else [])
  }

  /** The image source: the trimmed cover URL, or the no-image picture when that is missing or blank. */
  function CoverSrc(coverUrl: Option<string>): (r: string)
    ensures coverUrl.Some? && Trim(coverUrl.value) != [] ==> r == Trim(coverUrl.value)
    ensures coverUrl.None? || Trim(coverUrl.value) == [] ==> r == NoImageUrl
  {
    match coverUrl
    case None => NoImageUrl
    case Some(u) => if Trim(u) != [] then Trim(u) else NoImageUrl
  }

  /** The no-image address is non-empty and starts and ends with no white space. */
  lemma NoImageUrlTrimmed()
    ensures NoImageUrl != [] && Trim(NoImageUrl) == NoImageUrl
  {
    assert NoImageUrl[0] == 'h' && NoImageUrl[|NoImageUrl| - 1] == 'g';
  }

  /** A card never gets an empty image source, and the source never has white space at its ends. */
  lemma CoverSrcNonEmptyTrimmed(coverUrl: Option<string>)
    ensures CoverSrc(coverUrl) != []
    ensures Trim(CoverSrc(coverUrl)) == CoverSrc(coverUrl)
  {
    NoImageUrlTrimmed();
  }

  /** The alternative text: the title, or `image` when there is none. */
  function AltText(title: Option<string>): (r: string)
    ensures title.Some? ==> r == title.value
    ensures title.None? ==> r == "image"
  {
    title.GetOr("image")
  }

  /** The card of one post. */
  function Card(post: ArticleCard): CardView {
    CardView(CoverSrc(post.coverUrl), AltText(post.title), ExcerptText(post.excerpt))
  }

  /** The cards of the posts, in their order. */
  function Cards(posts: seq<ArticleCard>): (r: seq<CardView>)
    ensures |r| == |posts|
  {
    if posts == [] then [] else [Card(posts[0])] + Cards(posts[1..])
  }

  /** The card at each place is the card of the post at that place. */
  lemma {:induction false} CardsAt(posts: seq<ArticleCard>, i: int)
    requires 0 <= i < |posts|
    ensures Cards(posts)[i] == Card(posts[i])
    decreases i
  {
    var rest := Cards(posts[1..]);
    assert Cards(posts) == [Card(posts[0])] + rest;
    if i > 0 {
      CardsAt(posts[1..], i - 1);
      assert rest[i - 1] == Card(posts[1..][i - 1]);
    }
  }
}
