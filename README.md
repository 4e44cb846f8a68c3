# Garden blog: slugs, feed text, post form and contact form

A model of the core logic of a Next.js gardening blog. The model covers five parts:

- **Slug generation** (`lib/slugify.ts`) turns a post title into the URL slug. It lower-cases, trims, keeps Japanese characters, turns white space into hyphens, drops symbols and collapses hyphen runs.
- **The RSS feed route** (`app/rss.xml/route.ts`) does four things:
  - it chooses http or https from the request host and builds the site, feed and post links;
  - it flattens a post's Markdown into a short plain-text fallback description (180 characters);
  - it prefers the excerpt over that fallback;
  - it escapes the description for a CDATA section.
- **The new-post form** (`app/admin/new/page.tsx`) covers:
  - the slug that follows the title until it is edited by hand, and the button that goes back to automatic mode;
  - the slug availability answer;
  - the submit gate for required fields and a slug already in use;
  - the comma-separated tag parser, and the row that is inserted (empty texts become null).
- **The contact form** (`components/ContactForm.tsx`) covers:
  - full-width to half-width folding, and e-mail normalisation and validation;
  - the Japanese-only name field and the all-fields-valid gate;
  - the state changes of typing, submitting and the insert settling.
- **The post cards** (`components/Hero.tsx`) show an excerpt cut to 50 characters with `...`, a cover image with a no-image fallback, and alternative text.

The model has these modules:

- `Chars`: character classes.
- `Strings`: `trim`, ASCII lower-casing, `split`/`join`, `includes`, `slice`.
- `Replace`: a small engine for the global regular-expression replacements the sources use. It scans left to right, replaces a match and resumes after it, and otherwise copies one character.
- One module per source file: `Slugs`, `Rss`, `NewPost`, `Contact` and `Hero`.

Two components keep state that event handlers update: the post form and the contact form. They are classes whose methods state their whole new state. Everything else is functions with lemmas.

Strings are sequences of `char`. Each `char` stands for one JavaScript (UTF-16) code unit of the Basic Multilingual Plane; text outside that plane is not modelled faithfully (see "Left out").

## Model

| member | source | states |
|---|---|---|
| Strings.Trim | lib/slugify.ts:4 | the result is a slice of the input that neither starts nor ends with white space; it is empty exactly when the input is all white space; a text without white space at its ends is kept |
| Strings.TrimCutsOnlySpace | lib/slugify.ts:4 | trimming cuts only white space: everything before and after the result in the input is white space |
| Strings.LowerAscii | lib/slugify.ts:3 | same length, each code unit lower-cased on its own |
| Strings.LowerAsciiFacts | lib/slugify.ts:3 | no upper-case ASCII letter is left; a text without upper-case letters is unchanged |
| Strings.Split | app/admin/new/page.tsx:95 | at least one field, no field holds the separator, and joining the fields with it gives back the text |
| Strings.SplitJoin | app/admin/new/page.tsx:95 | splitting the join of separator-free fields gives back exactly those fields |
| Strings.SliceTo | app/rss.xml/route.ts:29 | the result is a prefix of the text, of length min(n, length) |
| Replace.ReplaceAllAvoids | app/rss.xml/route.ts:73-78 | a character property that no replacement text and no unmatched character has does not occur in the result of a global replacement |
| Replace.ReplaceAllIdentity | app/rss.xml/route.ts:68 | a global replacement changes nothing when every match is already the replacement text |
| Replace.NoMatchIdentity | app/rss.xml/route.ts:68 | a global replacement changes nothing when nothing matches |
| Replace.ReplaceRunsSeparates | lib/slugify.ts:6-8 | replacing every run of a class by one character of the class leaves no two neighbours from the class |
| Slugs.KeepJapaneseIsIdentity | lib/slugify.ts:5 | the Japanese-preserving replacement returns its input unchanged |
| Slugs.SlugifyShape | lib/slugify.ts:1-9 | every slug uses only lower-case ASCII letters, digits, `_`, `-`, 一-龠, ぁ-ん, ァ-ヶ and ー, has no `--`, and so holds no white space, upper-case letter, half-width katakana or 々 |
| Slugs.SpacesToHyphensShape | lib/slugify.ts:6 | after the white-space step no white space is left, and no upper-case letter is added |
| Slugs.StripSymbolsShape | lib/slugify.ts:7 | after symbol stripping only slug characters are left |
| Slugs.CollapseHyphensShape | lib/slugify.ts:8 | after hyphen collapsing no `--` occurs |
| Slugs.SlugifyFixedPoints | lib/slugify.ts:1-9 | a text is its own slug exactly when it has the slug shape |
| Slugs.SlugShapedIsFixed | lib/slugify.ts:1-9 | a slug-shaped text is its own slug: no step changes it |
| Slugs.SlugifyIdempotent | lib/slugify.ts:1-9 | the slug of a slug is the slug itself |
| Slugs.SlugifyBlank | lib/slugify.ts:4 | a blank title gives the empty slug |
| Slugs.SlugifySymbolBetweenSpaces | lib/slugify.ts:6-8 | `a & b` gives `a-b`: hyphens turned from spaces are joined once the symbol between them is gone |
| Slugs.SlugifyDropsListedChar | lib/slugify.ts:5-7 | half-width katakana and 々 are listed by the preserving step but still removed by symbol stripping |
| Rss.Protocol | app/rss.xml/route.ts:8 | the scheme is http exactly when the host contains `localhost`, https otherwise |
| Rss.SiteUrl | app/rss.xml/route.ts:9 | the site address is `http://` followed by the host when the host contains `localhost`, and `https://` followed by the host otherwise |
| Rss.MissingHostGivesHttps | app/rss.xml/route.ts:7-9 | without a host header the misspelled default `loclahost:3000` gives https links |
| Rss.LocalhostGivesHttp | app/rss.xml/route.ts:8 | any host containing `localhost` gets http |
| Rss.PostLinkSlug | app/rss.xml/route.ts:27 | a post link is the site address, `/posts/`, then the stored slug unchanged |
| Rss.CdataRoundTrip | app/rss.xml/route.ts:67-69 | reading back the CDATA sections of an escaped text gives exactly the text |
| Rss.ReadEscaped | app/rss.xml/route.ts:67-69 | escaped text followed by `]]>` reads back as the text |
| Rss.EscapeCdataLength | app/rss.xml/route.ts:68 | escaping adds twelve characters per `]]>` replaced |
| Rss.CountPositiveIffContains | app/rss.xml/route.ts:68 | some `]]>` is replaced exactly when the text contains one |
| Rss.EscapeCdataIdentity | app/rss.xml/route.ts:68 | escaping changes the text exactly when it contains `]]>` |
| Rss.StripMdIsFlat | app/rss.xml/route.ts:71-80 | the flattened text has no `# > * _ ~ -`, no white space other than single spaces, and no space at its ends |
| Rss.BlankMarkersShape | app/rss.xml/route.ts:77 | after the marker step no marker character is left |
| Rss.CollapseSpacesShape | app/rss.xml/route.ts:78 | after the space step every white space is a single plain space |
| Rss.LinkBecomesDollarOne | app/rss.xml/route.ts:76 | a link `[text](url)` becomes the two characters `$1`, because the pattern has no capture group |
| Rss.ImageRemoved | app/rss.xml/route.ts:75 | an image `![alt](url)` is removed |
| Rss.StripMdLinkExample | app/rss.xml/route.ts:71-80 | the Markdown `[a](b)` flattens to `$1` |
| Rss.Fallback | app/rss.xml/route.ts:29 | the fallback is at most 180 characters and a prefix of the flattened body; it is the whole flattened body when that is short enough and exactly 180 characters when it is longer; it is empty when there is no body |
| Rss.DescriptionRoundTrip | app/rss.xml/route.ts:30-40 | the description element's CDATA reads back as the trimmed excerpt, or the trimmed fallback when there is no excerpt |
| Rss.BlankExcerptGivesEmptyDescription | app/rss.xml/route.ts:30 | a blank excerpt, even with a body, gives an empty description: an excerpt that is present wins over the fallback |
| Rss.FallbackDescriptionUnescaped | app/rss.xml/route.ts:29-30 | without an excerpt the description is the trimmed fallback, needs no escaping and is at most 180 characters |
| NewPost.TrimEachAt | app/admin/new/page.tsx:96 | each trimmed field is the trimmed field at the same place |
| NewPost.KeepNonEmpty | app/admin/new/page.tsx:97 | exactly the non-empty fields are kept: every kept field is a non-empty field of the input, every non-empty field is kept, and never more than there were |
| NewPost.KeepNonEmptyAppend | app/admin/new/page.tsx:97 | the filter keeps order: filtering a concatenation is the concatenation of the filtered parts |
| NewPost.ParseTagsWellFormed | app/admin/new/page.tsx:93-97 | every tag is non-empty, trimmed and without a comma |
| NewPost.ParseTagsPiece | app/admin/new/page.tsx:93-97 | a text without a comma gives its trimmed self as the one tag, or no tag when that is empty |
| NewPost.ParseTagsAppend | app/admin/new/page.tsx:93-97 | the tags of `a,b` are the tags of `a` followed by those of `b`, when `a` holds no comma |
| NewPost.ParseTagsBlank | app/admin/new/page.tsx:93-97 | a text made only of blanks and commas, the empty text included, gives no tags |
| NewPost.ParseTagsTwo | app/admin/new/page.tsx:93-97 | `a,b` gives the tags `a` and `b` |
| NewPost.EmptyToNull | app/admin/new/page.tsx:106-108 | an empty text is stored as null and any other text as it is |
| NewPost.MakeRow | app/admin/new/page.tsx:99-112 | the row holds the title, body and published flag as typed, the trimmed slug, null for an empty excerpt or cover, and the parsed tags |
| NewPost.SlugNeedsNoNormalising | app/admin/new/page.tsx:99 | a slug the form holds is unchanged by trimming, so the stored slug is the one redirected to |
| NewPost.SubmitBlocker | app/admin/new/page.tsx:82-89 | a submit is refused with the required-fields message exactly when title, slug or body is empty; otherwise with the slug-taken message exactly when the slug is known to be in use; an unknown answer does not block |
| NewPost.NewPostForm.constructor | app/admin/new/page.tsx:24-34 | the empty form is in automatic mode, published by default, with an unknown slug answer |
| NewPost.NewPostForm.SetTitle | app/admin/new/page.tsx:37-41 | the title is stored; in automatic mode the slug becomes the title's slug; an emptied slug makes its availability unknown; the slug invariant is kept |
| NewPost.NewPostForm.HandleSlugChange | app/admin/new/page.tsx:43-46 | editing the slug switches to manual mode and stores the slug of the typed text |
| NewPost.NewPostForm.ResetToAuto | app/admin/new/page.tsx:163-166 | going back to automatic mode sets the slug to the title's slug |
| NewPost.NewPostForm.SlugChanged | app/admin/new/page.tsx:48-52 | an emptied slug resets the availability answer to unknown, and nothing else changes |
| NewPost.NewPostForm.SlugCheckSettled | app/admin/new/page.tsx:55-68 | a failed query makes the answer unknown, otherwise the slug is in use exactly when a row was found |
| NewPost.NewPostForm.SetFields | app/admin/new/page.tsx:205-252 | excerpt, cover, body, tags and published flag are stored without touching the slug state |
| NewPost.NewPostForm.Submit | app/admin/new/page.tsx:78-122 | a refused submit shows the gate's message and inserts nothing; otherwise the row is built from the fields with the slug unchanged, an insert error is shown, and success opens `/posts/` plus the slug; the form ends not submitting |
| Contact.HalfOf | components/ContactForm.tsx:8 | a full-width ASCII form maps to a printable ASCII character |
| Contact.Z2hPointwise | components/ContactForm.tsx:7-9 | folding keeps the length and works per character: a full-width form becomes its ASCII character and the ideographic space becomes a space |
| Contact.Z2hNoFullWidth | components/ContactForm.tsx:7-9 | no full-width ASCII form or ideographic space is left after folding |
| Contact.Z2hIdempotent | components/ContactForm.tsx:7-9 | folding twice is folding once |
| Contact.IsValidEmail | components/ContactForm.tsx:10-14 | an address is accepted exactly when its normalised form has the e-mail shape (non-blank local part, `@`, a domain with a dot and at least two characters after it); an accepted address normalises to a non-empty text |
| Contact.MatchesEmailIffShaped | components/ContactForm.tsx:12 | the e-mail pattern accepts exactly the texts with no white space, exactly one `@` with something before it, and a `.` after at least one domain character with at least two characters after it |
| Contact.NormalizeEmailChars | components/ContactForm.tsx:15 | a normalised address has no upper-case ASCII letter, no full-width ASCII form and no ideographic space |
| Contact.NormalizeEmailTrimmed | components/ContactForm.tsx:15 | a normalised address has no white space at its ends |
| Contact.NormalizeEmailIdempotent | components/ContactForm.tsx:15 | normalising twice is normalising once |
| Contact.FullWidthEmailAccepted | components/ContactForm.tsx:10-15 | an address typed in full-width characters normalises to `a@b.jp` and is accepted |
| Contact.ProlongedSoundMarkRejected | components/ContactForm.tsx:26 | a name holding ー is refused |
| Contact.AsciiLetterRejected | components/ContactForm.tsx:26 | a name holding an ASCII letter is refused |
| Contact.AcceptedNameOk | components/ContactForm.tsx:84-92 | a value the name field accepts is a valid name exactly when it holds a character other than the ideographic space |
| Contact.NameRecheckPasses | components/ContactForm.tsx:44-48 | once everything is valid, the trimmed name passes the name pattern again, so the second name check cannot fail |
| Contact.ContactForm.constructor | components/ContactForm.tsx:18-23 | the empty form, not submitting, with no message or error |
| Contact.ContactForm.OnNameChange | components/ContactForm.tsx:84-92 | an empty or accepted value is stored and the error is set to the empty text; any other value is refused with the Japanese-only message and the name is kept |
| Contact.ContactForm.OnEmailChange | components/ContactForm.tsx:103-106 | the address is stored as typed and the error cleared |
| Contact.ContactForm.OnCommentChange | components/ContactForm.tsx:116 | the comment is stored as typed |
| Contact.ContactForm.Submit | components/ContactForm.tsx:32-56 | unless all fields are valid and no submit is under way, the check-your-input error is shown and nothing is sent; otherwise the form starts submitting with an empty message and hands over the trimmed name, normalised address and trimmed comment |
| Contact.ContactForm.InsertSettled | components/ContactForm.tsx:58-69 | a failed insert shows the failure message and keeps the fields; success shows the sent message and clears the three fields; the form ends not submitting |
| Hero.ExcerptText | components/Hero.tsx:48 | a missing or empty excerpt shows nothing; one of at most 50 characters shows whole; a longer one shows its first 50 characters followed by `...` |
| Hero.CoverSrc | components/Hero.tsx:38 | the trimmed cover address when it is not blank, the no-image picture otherwise |
| Hero.CoverSrcNonEmptyTrimmed | components/Hero.tsx:38 | an image source is never empty and never has white space at its ends |
| Hero.AltText | components/Hero.tsx:39 | the title, or `image` when there is none |
| Hero.CardsAt | components/Hero.tsx:20 | one card per post, in order, each the card of the post at that place |

The definitions that model the source's own functions carry no contract of their own. The rows above state their properties:

- `Slugs.Slugify` models lib/slugify.ts:1-9; see the `Slugs.Slugify*` rows.
- `Rss.Host` models app/rss.xml/route.ts:7; see `Rss.MissingHostGivesHttps`.
- `Rss.FeedUrl` models app/rss.xml/route.ts:10 and `Rss.PostLink` models app/rss.xml/route.ts:27; see `Rss.PostLinkSlug`.
- `Rss.EscapeCdata` models app/rss.xml/route.ts:67-69; see `Rss.CdataRoundTrip`, `Rss.ReadEscaped` and `Rss.EscapeCdataIdentity`.
- `Rss.StripMd` models app/rss.xml/route.ts:71-80; see `Rss.StripMdIsFlat` and the rows after it.
- `Rss.Description` models app/rss.xml/route.ts:30; see `Rss.DescriptionRoundTrip` and `Rss.BlankExcerptGivesEmptyDescription`.
- `NewPost.ParseTags` models app/admin/new/page.tsx:93-97; see the `NewPost.ParseTags*` rows.
- `Contact.Z2h` models components/ContactForm.tsx:7-9; see `Contact.HalfOf` and `Contact.FullWidthEmailAccepted`.
- `Contact.NormalizeEmail` models components/ContactForm.tsx:15; see the `Contact.NormalizeEmail*` rows.
- `Contact.IsNameChar` and `Contact.NameMatches` model the name pattern of components/ContactForm.tsx:6; see `Contact.ProlongedSoundMarkRejected` and `Contact.AsciiLetterRejected`.
- `Contact.NameOk`, `Contact.CommentOk` and `Contact.AllOk` model components/ContactForm.tsx:26-30; see `Contact.AcceptedNameOk`, `Contact.NameRecheckPasses` and `Contact.ContactForm.Submit`.
- `Hero.Card` and `Hero.Cards` model components/Hero.tsx:20-49; see `Hero.CardsAt`.
- `Replace.MatchLen` and `Replace.ReplaceAll` model JavaScript's global `replace`; see the `Replace.*` rows.

## Left out

- Lower-casing covers ASCII only. JavaScript's `toLowerCase` also maps other scripts; the titles and addresses this site handles use ASCII and Japanese, which has no case.
- Characters outside the Basic Multilingual Plane are not treated specially. A Dafny `char` is a whole Unicode scalar value, while JavaScript strings and the non-`u` regular expressions here work on UTF-16 code units; the model treats each `char` as one code unit, which is exact for the Basic Multilingual Plane only.
- Hero.ExcerptText, Rss.Fallback: for text with characters outside the Basic Multilingual Plane, the lengths and cut points differ from JavaScript. `length` and `slice` count UTF-16 code units, so an excerpt of 49 `a` followed by 😀 is 51 code units long; JavaScript cuts the emoji in half and appends `...`, while the model counts 50 characters and shows the excerpt whole.
- The NFC normalisation of the slug is taken as the identity. A slug the form holds uses only lower-case ASCII, digits, `_`, `-`, 一-龠, ぁ-ん, ァ-ヶ and ー. None of these is a combining mark or is changed by NFC.
- The network is not modelled: the database insert, the slug lookup and the feed query. Their answers are parameters: `insertError`, `failed`/`found`, and the articles' fields.
- The 350 ms debounce timer of the slug check is not modelled, and neither is the order in which asynchronous answers arrive. `NewPost.NewPostForm.SlugCheckSettled` may arrive in any state, including one where the slug has since become empty.
- NewPost.NewPostForm.Submit: the submit runs from start to finish as one step, with the insert's answer given. The intermediate state where `submitting` is true while the insert is pending is not separately observable.
- Contact.ContactForm.Submit omits the second name check before the insert. `Contact.NameRecheckPasses` proves that it always passes once the gate has let the submit through.
- The feed's XML document is not modelled: the item template, the item title, dates via `toUTCString`, and the response headers. Only the links and the description text are modelled.
- The `?? ''` after the fallback in the feed route, and the `|| []` after the tag filter, can never apply. They have no counterpart in the model.
- The following are not part of this model:
  - Markdown rendering for the preview (lib/markdown.ts);
  - the login gate of the admin page;
  - the header, footer and other pages;
  - the `encodeURIComponent` in card links;
  - animations and styling.
